/** Round-robin scheduling over a fixed table of tasks, with sleepers, zombies
    and the reaping of kernel stacks. */
module Scheduler {
  import opened Wrappers

  const MAX_TASKS := 16

  datatype Status = Unused | Ready | Sleeping(wake: nat) | Exited

  /** A slot of the table. `stack` is where its kernel stack begins, or 0 for the
      boot stack, which is not allocated. */
  datatype Task = Task(state: Status, stack: nat, id: nat, code: nat)

  /** The table, the running slot, the last id given, and the kernel stacks
      that are allocated. */
  datatype System = System(tasks: seq<Task>, current: nat, nextId: nat, stacks: set<nat>)

  ghost predicate Sized(s: System) { |s.tasks| == MAX_TASKS && s.current < MAX_TASKS }

  // ---- reaping -------------------------------------------------------------------------------

  /** Zombies whose status was consumed are reaped, the running slot never. */
  predicate Reaps(t: Task, i: nat, current: nat, reapable: set<nat>) {
    i != current && t.state.Exited? && i in reapable
  }

  function ReapTask(t: Task, i: nat, current: nat, reapable: set<nat>): (r: Task) {
    if Reaps(t, i, current, reapable) then t.(state := Unused) else t
  }

  /** The stacks freed by reaping the slots below `n`. */
  ghost function Freed(tasks: seq<Task>, current: nat, reapable: set<nat>, n: nat): (r: set<nat>)
    requires n <= |tasks|
  {
    if n == 0 then {}
    else
      Freed(tasks, current, reapable, n - 1) +
      if Reaps(tasks[n - 1], n - 1, current, reapable) then {tasks[n - 1].stack} else {}
  }

  ghost function Reaped(s: System, reapable: set<nat>): (r: System)
    requires Sized(s)
    ensures Sized(r)
  {
    s.(tasks := seq(MAX_TASKS, i requires 0 <= i < MAX_TASKS => ReapTask(s.tasks[i], i, s.current, reapable)),
       stacks := s.stacks - Freed(s.tasks, s.current, reapable, MAX_TASKS))
  }

  // ---- waking and picking ----------------------------------------------------------------------

  function WakeTask(t: Task, now: nat): (r: Task) {
    if t.state.Sleeping? && t.state.wake <= now then t.(state := Ready) else t
  }

  ghost function Woken(s: System, now: nat): (r: System)
    requires Sized(s)
    ensures Sized(r)
  {
    s.(tasks := seq(MAX_TASKS, i requires 0 <= i < MAX_TASKS => WakeTask(s.tasks[i], now)))
  }

  /** The slot `off` places after `current`, round the table. */
  function At(current: nat, off: nat): (i: nat)
    ensures i < MAX_TASKS
  {
    (current + off) % MAX_TASKS
  }

  /** The least offset from `off` on at which a slot is ready, or past the end. */
  function Offset(tasks: seq<Task>, current: nat, off: nat): (r: nat)
    requires |tasks| == MAX_TASKS
    ensures off <= r && (r <= MAX_TASKS ==> tasks[At(current, r)].state.Ready?)
    ensures forall k | off <= k < r && k <= MAX_TASKS :: !tasks[At(current, k)].state.Ready?
    decreases MAX_TASKS + 1 - off
  {
    if off > MAX_TASKS || tasks[At(current, off)].state.Ready? then off
    else Offset(tasks, current, off + 1)
  }

  ghost function Picked(s: System): (r: System)
    requires Sized(s)
    ensures Sized(r)
  {
    var off := Offset(s.tasks, s.current, 1);
    if off > MAX_TASKS then s else s.(current := At(s.current, off))
  }

  /** The whole of `schedule`. */
  ghost function Scheduled(s: System, now: nat, reapable: set<nat>): (r: System)
    requires Sized(s)
    ensures Sized(r)
  {
    Picked(Woken(Reaped(s, reapable), now))
  }

  // ---- the other operations ----------------------------------------------------------------------

  /** The first unused slot, or the size of the table. */
  function FreeSlot(tasks: seq<Task>, i: nat): (r: nat)
    requires i <= |tasks|
    ensures i <= r <= |tasks| && (r < |tasks| ==> tasks[r].state.Unused?)
    ensures forall k | i <= k < r :: !tasks[k].state.Unused?
    decreases |tasks| - i
  {
    if i == |tasks| || tasks[i].state.Unused? then i else FreeSlot(tasks, i + 1)
  }

  /** A new task on the stack at `stack`; nothing changes when the table is full. */
  ghost function Registered(s: System, stack: nat): (r: System)
    requires Sized(s)
    ensures Sized(r)
  {
    var i := FreeSlot(s.tasks, 0);
    if i == MAX_TASKS then s
    else
      var t := Task(Ready, stack, s.nextId + 1, 0);
      s.(tasks := s.tasks[i := t], nextId := s.nextId + 1, stacks := s.stacks + {stack})
  }

  /** The running task goes to sleep, or exits. */
  function Marked(s: System, state: Status, code: nat): (r: System)
    requires s.current < |s.tasks|
  {
    s.(tasks := s.tasks[s.current := s.tasks[s.current].(state := state, code := code)])
  }

  /** 100 ticks a second, and never less than one tick. */
  function WakeTick(now: nat, ms: nat): (r: nat)
    ensures now < r && ms - 10 < 10 * (r - now) && (10 <= ms ==> 10 * (r - now) <= ms)
  {
    var t := ms * 100 / 1000;
    now + if t < 1 then 1 else t
  }

  // ---- safety --------------------------------------------------------------------------------

  /** Slots `i` and `j` are not two live tasks with one stack or one id. */
  ghost predicate Apart(t: Task, u: Task) {
    t.state.Unused? || u.state.Unused? || ((t.stack == 0 || t.stack != u.stack) && t.id != u.id)
  }

  ghost predicate Holds(s: System, t: Task) {
    t.state.Unused? || ((t.stack == 0 || t.stack in s.stacks) && t.id <= s.nextId)
  }

  ghost predicate Owner(s: System, k: nat, stack: nat) {
    k < |s.tasks| && !s.tasks[k].state.Unused? && s.tasks[k].stack == stack
  }

  /** The running slot is in use; live tasks have their own ids and allocated
      stacks; every allocated stack is some live task's. */
  ghost predicate Sound(s: System) {
    && Sized(s) && !s.tasks[s.current].state.Unused? && 0 !in s.stacks
    && (forall i | 0 <= i < MAX_TASKS :: Holds(s, s.tasks[i]))
    && (forall i, j | 0 <= i < j < MAX_TASKS :: Apart(s.tasks[i], s.tasks[j]))
    && (forall f | f in s.stacks :: exists k :: Owner(s, k, f))
  }

  lemma {:induction false} FreedAre(tasks: seq<Task>, current: nat, reapable: set<nat>, n: nat, f: nat)
    requires n <= |tasks|
    ensures f in Freed(tasks, current, reapable, n) <==>
              exists k :: 0 <= k < n && Reaps(tasks[k], k, current, reapable) && tasks[k].stack == f
  {
    if n > 0 { FreedAre(tasks, current, reapable, n - 1, f); }
  }

  /** Reaping frees the stacks of the tasks it removes, no other, and never the
      running one's. */
  lemma ReapedSound(s: System, reapable: set<nat>)
    requires Sound(s)
    ensures Sound(Reaped(s, reapable))
    ensures Reaped(s, reapable).tasks[s.current] == s.tasks[s.current]
    ensures s.tasks[s.current].stack in s.stacks ==> s.tasks[s.current].stack in Reaped(s, reapable).stacks
  {
    var r := Reaped(s, reapable);
    forall i | 0 <= i < MAX_TASKS ensures Holds(r, r.tasks[i]) {
      assert Holds(s, s.tasks[i]);
      FreedAre(s.tasks, s.current, reapable, MAX_TASKS, s.tasks[i].stack);
    }
    forall i, j | 0 <= i < j < MAX_TASKS ensures Apart(r.tasks[i], r.tasks[j]) { assert Apart(s.tasks[i], s.tasks[j]); }
    forall f | f in r.stacks ensures exists k :: Owner(r, k, f) {
      FreedAre(s.tasks, s.current, reapable, MAX_TASKS, f);
      var k :| Owner(s, k, f);
      assert Owner(r, k, f);
    }
  }

  lemma WokenSound(s: System, now: nat)
    requires Sound(s)
    ensures Sound(Woken(s, now))
  {
    var r := Woken(s, now);
    forall i | 0 <= i < MAX_TASKS ensures Holds(r, r.tasks[i]) { assert Holds(s, s.tasks[i]); }
    forall i, j | 0 <= i < j < MAX_TASKS ensures Apart(r.tasks[i], r.tasks[j]) { assert Apart(s.tasks[i], s.tasks[j]); }
    forall f | f in r.stacks ensures exists k :: Owner(r, k, f) {
      var k :| Owner(s, k, f);
      assert Owner(r, k, f);
    }
  }

  lemma PickedSound(s: System)
    requires Sound(s)
    ensures Sound(Picked(s))
  {
    var r := Picked(s);
    forall f | f in r.stacks ensures exists k :: Owner(r, k, f) {
      var k :| Owner(s, k, f);
      assert Owner(r, k, f);
    }
    forall i | 0 <= i < MAX_TASKS ensures Holds(r, r.tasks[i]) { assert Holds(s, s.tasks[i]); }
  }

  lemma ScheduledSound(s: System, now: nat, reapable: set<nat>)
    requires Sound(s)
    ensures Sound(Scheduled(s, now, reapable))
  {
    ReapedSound(s, reapable);
    WokenSound(Reaped(s, reapable), now);
    PickedSound(Woken(Reaped(s, reapable), now));
  }

  lemma RegisteredSound(s: System, stack: nat)
    requires Sound(s) && stack != 0 && stack !in s.stacks
    ensures Sound(Registered(s, stack))
  {
    var r, n := Registered(s, stack), FreeSlot(s.tasks, 0);
    if n < MAX_TASKS {
      forall i | 0 <= i < MAX_TASKS ensures Holds(r, r.tasks[i]) { assert Holds(s, s.tasks[i]); }
      forall i, j | 0 <= i < j < MAX_TASKS ensures Apart(r.tasks[i], r.tasks[j]) {
        assert Apart(s.tasks[i], s.tasks[j]) && Holds(s, s.tasks[i]) && Holds(s, s.tasks[j]);
      }
      forall f | f in r.stacks ensures exists k :: Owner(r, k, f) {
        if f == stack {
          assert Owner(r, n, f);
        } else {
          var k :| Owner(s, k, f);
          assert Owner(r, k, f);
        }
      }
    }
  }

  lemma MarkedSound(s: System, state: Status, code: nat)
    requires Sound(s) && !state.Unused?
    ensures Sound(Marked(s, state, code))
  {
    var r := Marked(s, state, code);
    forall i | 0 <= i < MAX_TASKS ensures Holds(r, r.tasks[i]) { assert Holds(s, s.tasks[i]); }
    forall i, j | 0 <= i < j < MAX_TASKS ensures Apart(r.tasks[i], r.tasks[j]) { assert Apart(s.tasks[i], s.tasks[j]); }
    forall f | f in r.stacks ensures exists k :: Owner(r, k, f) {
      var k :| Owner(s, k, f);
      assert Owner(r, k, f);
    }
  }

  // ---- bounded waiting -------------------------------------------------------------------------

  /** How many places slot `j` is after slot `current`, from 1 to the size of
      the table. */
  function Distance(current: nat, j: nat): (d: nat)
    requires current < MAX_TASKS && j < MAX_TASKS
    ensures 1 <= d <= MAX_TASKS && At(current, d) == j && (j != current ==> d < MAX_TASKS)
  {
    if j > current then j - current else j + MAX_TASKS - current
  }

  lemma Closer(current: nat, off: nat, j: nat)
    requires current < MAX_TASKS && j < MAX_TASKS && 1 <= off < Distance(current, j)
    ensures Distance(At(current, off), j) == Distance(current, j) - off
  {
  }

  /** Slot `j` may run at tick `now`. */
  predicate Due(t: Task, now: nat) { t.state.Ready? || (t.state.Sleeping? && t.state.wake <= now) }

  /** A task that may run is picked, or the turn comes closer to it. */
  lemma ScheduleApproaches(s: System, now: nat, reapable: set<nat>, j: nat)
    requires Sized(s) && j < MAX_TASKS && Due(s.tasks[j], now) && j != s.current
    ensures var r := Scheduled(s, now, reapable);
            && r.tasks[j].state.Ready? && r.tasks[j].id == s.tasks[j].id
            && (r.current == j || Distance(r.current, j) < Distance(s.current, j))
  {
    PickApproaches(Woken(Reaped(s, reapable), now), j);
  }

  lemma PickApproaches(s: System, j: nat)
    requires Sized(s) && j < MAX_TASKS && s.tasks[j].state.Ready? && j != s.current
    ensures Picked(s).tasks == s.tasks
    ensures Picked(s).current == j || Distance(Picked(s).current, j) < Distance(s.current, j)
  {
    var off, d := Offset(s.tasks, s.current, 1), Distance(s.current, j);
    assert s.tasks[At(s.current, d)].state.Ready?;
    assert off <= d;
    if off < d { Closer(s.current, off, j); }
  }

  /** `schedule` leaves a task running that is not ready exactly when no slot is. */
  lemma NobodyReady(s: System, now: nat, reapable: set<nat>)
    requires Sized(s)
    ensures var r := Scheduled(s, now, reapable);
            !r.tasks[r.current].state.Ready? <==> forall i | 0 <= i < MAX_TASKS :: !Due(s.tasks[i], now)
  {
    var w := Woken(Reaped(s, reapable), now);
    var off := Offset(w.tasks, w.current, 1);
    forall i | 0 <= i < MAX_TASKS ensures w.tasks[i].state.Ready? <==> Due(s.tasks[i], now) {}
    if off > MAX_TASKS {
      forall i: nat | i < MAX_TASKS ensures !w.tasks[i].state.Ready? {
        assert !w.tasks[At(w.current, Distance(w.current, i))].state.Ready?;
      }
    }
  }

  /** A task that is alone and goes to sleep is still the running one, though
      asleep until a later tick. */
  lemma LoneSleeperRuns(s: System, ms: nat, now: nat)
    requires Sized(s) && forall i | 0 <= i < MAX_TASKS && i != s.current :: s.tasks[i].state.Unused?
    ensures var r := Scheduled(Marked(s, Sleeping(WakeTick(now, ms)), s.tasks[s.current].code), now, {});
            r.current == s.current && r.tasks[r.current].state == Sleeping(WakeTick(now, ms)) && now < WakeTick(now, ms)
  {
    hide Offset, WakeTick, Freed;
    var t := Marked(s, Sleeping(WakeTick(now, ms)), s.tasks[s.current].code);
    var w := Woken(Reaped(t, {}), now);
    forall i | 0 <= i < MAX_TASKS ensures w.tasks[i] == t.tasks[i] && !w.tasks[i].state.Ready? {}
    PickedNone(w);
  }

  lemma PickedNone(s: System)
    requires Sized(s) && forall i | 0 <= i < MAX_TASKS :: !s.tasks[i].state.Ready?
    ensures Picked(s) == s
  {
    hide At;
    assert Offset(s.tasks, s.current, 1) > MAX_TASKS;
  }

  // ---- runs ------------------------------------------------------------------------------------

  datatype Event =
    | Spawn(stack: nat)
    | Tick(now: nat, reapable: set<nat>)
    | Sleep(ms: nat, now: nat, reapable: set<nat>)
    | Exit(code: nat)

  ghost function After(s: System, e: Event): (r: System)
    requires Sized(s)
    ensures Sized(r)
  {
    match e
    case Spawn(stack) => Registered(s, stack)
    case Tick(now, reapable) => Scheduled(s, now, reapable)
    case Sleep(ms, now, reapable) =>
      Scheduled(Marked(s, Sleeping(WakeTick(now, ms)), s.tasks[s.current].code), now, reapable)
    case Exit(code) => Marked(s, Exited, code)
  }

  /** A new task's stack comes from the allocator, so it is not in use. */
  ghost predicate Allowed(s: System, e: Event) { e.Spawn? ==> e.stack != 0 && e.stack !in s.stacks }

  ghost function Run(s: System, es: seq<Event>): (r: System)
    requires Sized(s)
    ensures Sized(r)
    decreases |es|
  {
    if es == [] then s else Run(After(s, es[0]), es[1..])
  }

  ghost predicate AllAllowed(s: System, es: seq<Event>)
    requires Sized(s)
    decreases |es|
  {
    es == [] || (Allowed(s, es[0]) && AllAllowed(After(s, es[0]), es[1..]))
  }

  /** Over every run the running task keeps its slot and its stack. */
  lemma {:induction false} RunSound(s: System, es: seq<Event>)
    requires Sound(s) && AllAllowed(s, es)
    ensures Sound(Run(s, es))
    ensures var t := Run(s, es).tasks[Run(s, es).current];
            !t.state.Unused? && (t.stack == 0 || t.stack in Run(s, es).stacks)
    decreases |es|
  {
    if es != [] {
      AfterSound(s, es[0]);
      RunSound(After(s, es[0]), es[1..]);
    } else {
      assert Holds(s, s.tasks[s.current]);
    }
  }

  lemma AfterSound(s: System, e: Event)
    requires Sound(s) && Allowed(s, e)
    ensures Sound(After(s, e))
  {
    match e
    case Spawn(stack) => RegisteredSound(s, stack);
    case Tick(now, reapable) => ScheduledSound(s, now, reapable);
    case Sleep(ms, now, reapable) =>
      MarkedSound(s, Sleeping(WakeTick(now, ms)), s.tasks[s.current].code);
      ScheduledSound(Marked(s, Sleeping(WakeTick(now, ms)), s.tasks[s.current].code), now, reapable);
    case Exit(code) => MarkedSound(s, Exited, code);
  }

  /** How many of the events are calls of `schedule`. */
  function Schedules(es: seq<Event>): (n: nat) {
    if es == [] then 0 else (if es[0].Tick? || es[0].Sleep? then 1 else 0) + Schedules(es[1..])
  }

  /** Slot `j` never becomes the running one. */
  ghost predicate Waits(s: System, es: seq<Event>, j: nat)
    requires Sized(s)
    decreases |es|
  {
    s.current != j && (es == [] || Waits(After(s, es[0]), es[1..], j))
  }

  /** No event but its own turn takes a task out of the ready state, and every
      call of `schedule` brings the turn closer. */
  lemma AfterApproaches(s: System, e: Event, j: nat)
    requires Sized(s) && j < MAX_TASKS && j != s.current && s.tasks[j].state.Ready?
    ensures var r := After(s, e);
            && r.tasks[j].state.Ready? && r.tasks[j].id == s.tasks[j].id
            && (r.current == j || Distance(r.current, j) + Schedules([e]) <= Distance(s.current, j))
  {
    match e
    case Spawn(_) =>
    case Tick(now, reapable) => ScheduleApproaches(s, now, reapable, j);
    case Sleep(ms, now, reapable) =>
      ScheduleApproaches(Marked(s, Sleeping(WakeTick(now, ms)), s.tasks[s.current].code), now, reapable, j);
    case Exit(_) =>
  }

  /** Bounded waiting: a ready task waits for fewer than 15 calls of `schedule`,
      whatever the others do; the next one, at the latest, runs it. */
  lemma {:induction false} BoundedWait(s: System, es: seq<Event>, j: nat)
    requires Sized(s) && j < MAX_TASKS && s.tasks[j].state.Ready? && Waits(s, es, j)
    ensures Schedules(es) < Distance(s.current, j) <= MAX_TASKS - 1
    ensures Run(s, es).tasks[j].state.Ready? && Run(s, es).tasks[j].id == s.tasks[j].id
    decreases |es|
  {
    if es != [] {
      AfterApproaches(s, es[0], j);
      BoundedWait(After(s, es[0]), es[1..], j);
    }
  }

  /** A sleeper is in the same position from the first call of `schedule` at or
      after its deadline on. */
  lemma SleeperWait(s: System, e: Event, es: seq<Event>, j: nat)
    requires Sized(s) && j < MAX_TASKS && (e.Tick? || e.Sleep?) && Due(s.tasks[j], e.now) && Waits(s, [e] + es, j)
    ensures Schedules([e] + es) < Distance(s.current, j) <= MAX_TASKS - 1
  {
    assert ([e] + es)[1..] == es;
    var t := if e.Tick? then s else Marked(s, Sleeping(WakeTick(e.now, e.ms)), s.tasks[s.current].code);
    ScheduleApproaches(t, e.now, e.reapable, j);
    BoundedWait(After(s, e), es, j);
  }

  /** Every call of `schedule` among the events comes before tick `wake`. */
  ghost predicate Before(es: seq<Event>, wake: nat) {
    forall i | 0 <= i < |es| && (es[i].Tick? || es[i].Sleep?) :: es[i].now < wake
  }

  lemma StaysAsleep(s: System, e: Event, j: nat)
    requires Sized(s) && j < MAX_TASKS && j != s.current && s.tasks[j].state.Sleeping?
    requires e.Tick? || e.Sleep? ==> e.now < s.tasks[j].state.wake
    ensures After(s, e).tasks[j] == s.tasks[j] && After(s, e).current != j
  {
    hide Scheduled;
    match e
    case Tick(now, reapable) => ScheduledAsleep(s, now, reapable, j);
    case Sleep(ms, now, reapable) =>
      ScheduledAsleep(Marked(s, Sleeping(WakeTick(now, ms)), s.tasks[s.current].code), now, reapable, j);
    case _ =>
  }

  lemma ScheduledAsleep(s: System, now: nat, reapable: set<nat>, j: nat)
    requires Sized(s) && j < MAX_TASKS && j != s.current && s.tasks[j].state.Sleeping? && now < s.tasks[j].state.wake
    ensures Scheduled(s, now, reapable).tasks[j] == s.tasks[j] && Scheduled(s, now, reapable).current != j
  {
    hide Offset;
    var w := Woken(Reaped(s, reapable), now);
    assert w.tasks[j] == s.tasks[j] && w.current == s.current;
    PicksReady(w, j);
  }

  lemma PicksReady(s: System, j: nat)
    requires Sized(s) && j < MAX_TASKS && j != s.current && !s.tasks[j].state.Ready?
    ensures Picked(s).tasks == s.tasks && Picked(s).current != j
  {
  }

  /** And it does not run before its deadline, whatever the others do. */
  lemma {:induction false} NotEarly(s: System, es: seq<Event>, j: nat)
    requires Sized(s) && j < MAX_TASKS && j != s.current && s.tasks[j].state.Sleeping?
    requires Before(es, s.tasks[j].state.wake)
    ensures Run(s, es).tasks[j] == s.tasks[j] && Waits(s, es, j)
    decreases |es|
  {
    hide After;
    if es != [] {
      StaysAsleep(s, es[0], j);
      NotEarly(After(s, es[0]), es[1..], j);
    }
  }

  // ---- what becomes of each slot --------------------------------------------------------------------

  /** From `s` to `r`: a slot is emptied exactly if it holds a zombie that is not
      running and whose status was consumed, every other slot stays as it is,
      and a stack is released exactly if it was that of an emptied slot. */
  ghost predicate ReapedAs(s: System, r: System, reapable: set<nat>)
    requires Sized(s) && Sized(r)
  {
    && (forall i | 0 <= i < MAX_TASKS ::
          r.tasks[i].state.Unused? <==>
          s.tasks[i].state.Unused? || (i != s.current && s.tasks[i].state.Exited? && i in reapable))
    && (forall i | 0 <= i < MAX_TASKS && !r.tasks[i].state.Unused? :: r.tasks[i] == s.tasks[i])
    && (forall f: nat :: f in r.stacks <==>
          f in s.stacks && forall i | 0 <= i < MAX_TASKS && s.tasks[i].stack == f ::
                             !(i != s.current && s.tasks[i].state.Exited? && i in reapable))
    && r.current == s.current && r.nextId == s.nextId
  }

  lemma ReapedExactly(s: System, reapable: set<nat>)
    requires Sized(s)
    ensures ReapedAs(s, Reaped(s, reapable), reapable)
  {
    var r := Reaped(s, reapable);
    forall f: nat ensures f in r.stacks <==>
          f in s.stacks && forall i | 0 <= i < MAX_TASKS && s.tasks[i].stack == f ::
                             !(i != s.current && s.tasks[i].state.Exited? && i in reapable)
    {
      FreedAre(s.tasks, s.current, reapable, MAX_TASKS, f);
    }
  }

  /** The state of a slot after a call of `schedule` at tick `now`. */
  ghost predicate SlotAfter(t: Task, u: Task, running: bool, now: nat, consumed: bool) {
    && u == t.(state := u.state)
    && match t.state
       case Exited => u.state == if !running && consumed then Unused else Exited
       case Sleeping(wake) => u.state == if wake <= now then Ready else t.state
       case _ => u.state == t.state
  }

  /** The turn goes to the first slot after the running one, round the table,
      that may run; it stays if there is none. */
  ghost predicate TurnAfter(s: System, r: System, now: nat)
    requires Sized(s)
  {
    || (r.current == s.current && forall i | 0 <= i < MAX_TASKS :: !Due(s.tasks[i], now))
    || (exists d: nat :: FirstDue(s, now, d) && r.current == At(s.current, d))
  }

  /** The first slot that may run is `d` places after the running one. */
  ghost predicate FirstDue(s: System, now: nat, d: nat)
    requires Sized(s)
  {
    && 1 <= d <= MAX_TASKS && Due(s.tasks[At(s.current, d)], now)
    && forall k: nat | 1 <= k < d :: !Due(s.tasks[At(s.current, k)], now)
  }

  ghost predicate ScheduledAs(s: System, r: System, now: nat, reapable: set<nat>)
    requires Sized(s) && Sized(r)
  {
    && (forall i | 0 <= i < MAX_TASKS :: SlotAfter(s.tasks[i], r.tasks[i], i == s.current, now, i in reapable))
    && TurnAfter(s, r, now) && r.nextId == s.nextId
  }

  lemma ScheduledExactly(s: System, now: nat, reapable: set<nat>)
    requires Sized(s)
    ensures ScheduledAs(s, Scheduled(s, now, reapable), now, reapable)
  {
    hide Freed, Picked, TurnAfter;
    var w := Woken(Reaped(s, reapable), now);
    PickedKeeps(w);
    TurnTaken(s, w, now);
  }

  lemma PickedKeeps(s: System)
    requires Sized(s)
    ensures Picked(s) == s.(current := Picked(s).current)
  {
  }

  lemma TurnTaken(s: System, w: System, now: nat)
    requires Sized(s) && Sized(w) && w.current == s.current
    requires forall i | 0 <= i < MAX_TASKS :: w.tasks[i].state.Ready? <==> Due(s.tasks[i], now)
    ensures TurnAfter(s, Picked(w), now)
  {
    hide Due, At;
    var d := Offset(w.tasks, w.current, 1);
    if d <= MAX_TASKS {
      forall k: nat | 1 <= k < d ensures !Due(s.tasks[At(s.current, k)], now) {
        assert !w.tasks[At(w.current, k)].state.Ready?;
      }
      assert FirstDue(s, now, d);
    } else {
      forall i | 0 <= i < MAX_TASKS ensures !Due(s.tasks[i], now) {
        assert !w.tasks[At(w.current, Distance(w.current, i))].state.Ready?;
      }
    }
  }

  /** A new task takes an empty slot, and nothing else changes; there is none
      exactly if no slot is empty. */
  ghost predicate RegisteredAs(s: System, r: System, stack: nat, id: Option<nat>)
    requires Sized(s) && Sized(r)
  {
    && (id.None? <==> forall i | 0 <= i < MAX_TASKS :: !s.tasks[i].state.Unused?)
    && (id.None? ==> r == s)
    && (id.Some? ==> exists n: nat | n < MAX_TASKS && s.tasks[n].state.Unused? ::
          r == System(s.tasks[n := Task(Ready, stack, id.value, 0)], s.current, id.value, s.stacks + {stack}))
  }

  /** A zombie whose status nobody consumed keeps its slot, its id, its stack and
      its exit code, whatever the others do. */
  lemma {:induction false} ZombieKept(s: System, es: seq<Event>, j: nat)
    requires Sized(s) && j < MAX_TASKS && j != s.current && s.tasks[j].state.Exited?
    requires forall i | 0 <= i < |es| && (es[i].Tick? || es[i].Sleep?) :: j !in es[i].reapable
    ensures Run(s, es).tasks[j] == s.tasks[j] && Waits(s, es, j)
    decreases |es|
  {
    hide After;
    if es != [] {
      StaysZombie(s, es[0], j);
      ZombieKept(After(s, es[0]), es[1..], j);
    }
  }

  lemma StaysZombie(s: System, e: Event, j: nat)
    requires Sized(s) && j < MAX_TASKS && j != s.current && s.tasks[j].state.Exited?
    requires e.Tick? || e.Sleep? ==> j !in e.reapable
    ensures After(s, e).tasks[j] == s.tasks[j] && After(s, e).current != j
  {
    hide Scheduled;
    match e
    case Tick(now, reapable) => ScheduledZombie(s, now, reapable, j);
    case Sleep(ms, now, reapable) =>
      ScheduledZombie(Marked(s, Sleeping(WakeTick(now, ms)), s.tasks[s.current].code), now, reapable, j);
    case _ =>
  }

  lemma ScheduledZombie(s: System, now: nat, reapable: set<nat>, j: nat)
    requires Sized(s) && j < MAX_TASKS && j != s.current && s.tasks[j].state.Exited? && j !in reapable
    ensures Scheduled(s, now, reapable).tasks[j] == s.tasks[j] && Scheduled(s, now, reapable).current != j
  {
    hide Offset, Freed;
    var w := Woken(Reaped(s, reapable), now);
    assert w.tasks[j] == s.tasks[j] && w.current == s.current;
    PicksReady(w, j);
  }

  /** The exit code a task leaves is there to be collected: once another task
      runs, it stays until the status is consumed. */
  lemma ExitCodeKept(s: System, code: nat, now: nat, reapable: set<nat>, es: seq<Event>, i: nat)
    requires Sized(s) && i < MAX_TASKS && i != s.current && Due(s.tasks[i], now)
    requires forall k | 0 <= k < |es| && (es[k].Tick? || es[k].Sleep?) :: s.current !in es[k].reapable
    ensures Run(s, [Exit(code)] + ([Tick(now, reapable)] + es)).tasks[s.current] ==
            s.tasks[s.current].(state := Exited, code := code)
  {
    hide Scheduled, Run;
    var t := After(s, Exit(code));
    LeavesRunning(t, now, reapable, i);
    RunsOn(s, Exit(code), [Tick(now, reapable)] + es);
    RunsOn(t, Tick(now, reapable), es);
    ZombieKept(After(t, Tick(now, reapable)), es, s.current);
  }

  lemma RunsOn(s: System, e: Event, es: seq<Event>)
    requires Sized(s)
    ensures Run(s, [e] + es) == Run(After(s, e), es)
  {
    assert ([e] + es)[1..] == es;
  }

  /** A running task that is not ready hands over to whoever may run. */
  lemma LeavesRunning(s: System, now: nat, reapable: set<nat>, i: nat)
    requires Sized(s) && !Due(s.tasks[s.current], now) && i < MAX_TASKS && Due(s.tasks[i], now)
    ensures var r := Scheduled(s, now, reapable);
            r.current != s.current && Due(s.tasks[r.current], now) && r.tasks[s.current] == s.tasks[s.current]
  {
    hide Scheduled;
    ScheduledExactly(s, now, reapable);
    var r := Scheduled(s, now, reapable);
    assert SlotAfter(s.tasks[s.current], r.tasks[s.current], true, now, s.current in reapable);
  }

  /** A task that goes to sleep while another may run hands over to it and is
      asleep until the tick it asked for. */
  lemma SleepHandsOver(s: System, ms: nat, now: nat, reapable: set<nat>, i: nat)
    requires Sized(s) && i < MAX_TASKS && i != s.current && Due(s.tasks[i], now)
    ensures var r := After(s, Sleep(ms, now, reapable));
            && r.current != s.current && Due(s.tasks[r.current], now)
            && r.tasks[s.current] == s.tasks[s.current].(state := Sleeping(WakeTick(now, ms)))
  {
    hide Scheduled;
    LeavesRunning(Marked(s, Sleeping(WakeTick(now, ms)), s.tasks[s.current].code), now, reapable, i);
  }

  /** After a call of `schedule` with a zombie to reap, a new task finds a slot. */
  lemma SlotComesBack(s: System, now: nat, reapable: set<nat>, i: nat, stack: nat)
    requires Sized(s) && i < MAX_TASKS && i != s.current && s.tasks[i].state.Exited? && i in reapable
    ensures var r := Scheduled(s, now, reapable);
            exists n: nat | n <= i && r.tasks[n].state.Unused? ::
              Registered(r, stack).tasks == r.tasks[n := Task(Ready, stack, s.nextId + 1, 0)]
  {
    hide Scheduled;
    ScheduledExactly(s, now, reapable);
    var r := Scheduled(s, now, reapable);
    assert SlotAfter(s.tasks[i], r.tasks[i], false, now, true);
    var n := FreeSlot(r.tasks, 0);
    assert n <= i;
  }

  // ---- the table in place ------------------------------------------------------------------------

  class Table {
    const tasks: array<Task>
    var current: nat
    var nextId: nat
    var stacks: set<nat>

    ghost predicate Shaped()
      reads this
    {
      tasks.Length == MAX_TASKS && current < MAX_TASKS
    }

    ghost function Now(): (s: System)
      reads this, tasks
    {
      System(tasks[..], current, nextId, stacks)
    }

    /** The boot context becomes task 0. */
    constructor ()
      ensures Shaped() && fresh(tasks) && Sound(Now()) && tasks[0].state.Ready? && current == 0
    {
      tasks := new Task[MAX_TASKS](i => Task(if i == 0 then Ready else Unused, 0, 0, 0));
      current, nextId, stacks := 0, 0, {};
    }

    method FindSlot() returns (r: Option<nat>)
      requires Shaped()
      ensures var i := FreeSlot(tasks[..], 0);
              r == if i == MAX_TASKS then None else Some(i)
    {
      var i := 0;
      while i < MAX_TASKS
        invariant 0 <= i <= MAX_TASKS && FreeSlot(tasks[..], 0) == FreeSlot(tasks[..], i)
      {
        if tasks[i].state.Unused? { return Some(i); }
        i := i + 1;
      }
      return None;
    }

    /** Reserve a slot, assign the id and publish the new task. */
    method Register(stack: nat) returns (id: Option<nat>)
      requires Shaped()
      modifies this`nextId, this`stacks, tasks
      ensures Shaped() && Now() == Registered(old(Now()), stack)
      ensures id == if old(FreeSlot(tasks[..], 0)) == MAX_TASKS then None else Some(old(nextId) + 1)
      ensures RegisteredAs(old(Now()), Now(), stack, id)
    {
      var slot := FindSlot();
      if slot.None? { return None; }
      nextId := nextId + 1;
      tasks[slot.value] := Task(Ready, stack, nextId, 0);
      stacks := stacks + {stack};
      return Some(nextId);
    }

    /** Free every reapable zombie's stack and slot, except the running one's. */
    method ReapExited(reapable: set<nat>)
      requires Shaped()
      modifies this`stacks, tasks
      ensures Shaped() && Now() == Reaped(old(Now()), reapable) && ReapedAs(old(Now()), Now(), reapable)
    {
      ghost var was := tasks[..];
      var i := 0;
      while i < MAX_TASKS
        invariant 0 <= i <= MAX_TASKS
        invariant forall k | 0 <= k < MAX_TASKS ::
                  tasks[k] == if k < i then ReapTask(was[k], k, current, reapable) else was[k]
        invariant stacks == old(stacks) - Freed(was, current, reapable, i)
      {
        if i != current && tasks[i].state.Exited? && i in reapable {
          stacks := stacks - {tasks[i].stack};
          tasks[i] := tasks[i].(state := Unused);
        }
        i := i + 1;
      }
      assert tasks[..] == Reaped(old(Now()), reapable).tasks;
      ReapedExactly(old(Now()), reapable);
    }

    method Wake(now: nat)
      requires Shaped()
      modifies tasks
      ensures Shaped() && Now() == Woken(old(Now()), now)
    {
      ghost var was := tasks[..];
      var i := 0;
      while i < MAX_TASKS
        invariant 0 <= i <= MAX_TASKS
        invariant forall k | 0 <= k < MAX_TASKS :: tasks[k] == if k < i then WakeTask(was[k], now) else was[k]
      {
        if tasks[i].state.Sleeping? && tasks[i].state.wake <= now { tasks[i] := tasks[i].(state := Ready); }
        i := i + 1;
      }
      assert tasks[..] == Woken(old(Now()), now).tasks;
    }

    /** Turn to the next ready task after the running one, if there is any. */
    method Pick()
      requires Shaped()
      modifies this`current
      ensures Shaped() && Now() == Picked(old(Now()))
    {
      var off := 1;
      while off <= MAX_TASKS
        invariant 1 <= off <= MAX_TASKS + 1 && Offset(tasks[..], current, 1) == Offset(tasks[..], current, off)
      {
        var i := (current + off) % MAX_TASKS;
        if tasks[i].state.Ready? {
          current := i;
          return;
        }
        off := off + 1;
      }
    }

    /** Reap, wake due sleepers, switch. */
    method Schedule(now: nat, reapable: set<nat>)
      requires Shaped()
      modifies this`current, this`stacks, tasks
      ensures Shaped() && Now() == Scheduled(old(Now()), now, reapable)
      ensures ScheduledAs(old(Now()), Now(), now, reapable)
    {
      ScheduledExactly(Now(), now, reapable);
      ReapExited(reapable);
      Wake(now);
      Pick();
    }

    method Mark(state: Status, code: nat)
      requires Shaped()
      modifies tasks
      ensures Shaped() && Now() == Marked(old(Now()), state, code)
    {
      tasks[current] := tasks[current].(state := state, code := code);
    }

    method SleepMs(ms: nat, now: nat, reapable: set<nat>)
      requires Shaped()
      modifies this`current, this`stacks, tasks
      ensures Shaped()
      ensures Now() == Scheduled(Marked(old(Now()), Sleeping(WakeTick(now, ms)), old(tasks[current].code)), now,
                                 reapable)
    {
      Mark(Sleeping(WakeTick(now, ms)), tasks[current].code);
      Schedule(now, reapable);
    }

    /** The running task becomes a zombie; it runs until the next switch. */
    method ExitWith(status: nat)
      requires Shaped()
      modifies tasks
      ensures Shaped() && Now() == After(old(Now()), Exit(status))
    {
      Mark(Exited, status);
    }
  }
}
