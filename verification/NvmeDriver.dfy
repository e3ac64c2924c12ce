/** The driver over one queue pair: submit-and-poll, and the sector loop. */
module NvmeDriver {
  import opened Words
  import opened NvmeProtocol

  const CMD_TIMEOUT_MS := 5000
  const IO_WRITE := 1
  const IO_READ := 2
  const CHUNK := 8
  const WORD32 := 0x1_0000_0000

  type Sector = seq<bv8>

  /** What the controller does between two polls. A failing command may leave
      anything in the buffer and on the medium. */
  datatype Act = Take | Finish | Fail(status: nat, disk: seq<Sector>, buf: seq<Sector>)

  // ---- commands on the medium ---------------------------------------------------------------

  function Lba(c: Cmd): (r: nat) { c.cdw10 + c.cdw11 * WORD32 }

  function Count(c: Cmd): (r: nat) { c.cdw12 % 65536 + 1 }

  function Opcode(c: Cmd): (r: nat) { c.cdw0 % 256 }

  /** The controller can carry the command out through a one-page buffer. */
  predicate Executable(c: Cmd, disk: seq<Sector>, buf: seq<Sector>) {
    && (Opcode(c) == IO_READ || Opcode(c) == IO_WRITE)
    && Lba(c) + Count(c) <= |disk| && Count(c) <= |buf|
  }

  function DiskAfter(c: Cmd, disk: seq<Sector>, buf: seq<Sector>): (r: seq<Sector>)
    requires Executable(c, disk, buf)
    ensures |r| == |disk|
  {
    if Opcode(c) == IO_READ then disk else disk[..Lba(c)] + buf[..Count(c)] + disk[Lba(c) + Count(c)..]
  }

  function BufAfter(c: Cmd, disk: seq<Sector>, buf: seq<Sector>): (r: seq<Sector>)
    requires Executable(c, disk, buf)
    ensures |r| == |buf|
  {
    if Opcode(c) == IO_READ then disk[Lba(c)..Lba(c) + Count(c)] + buf[Count(c)..] else buf
  }

  /** The command for `n` sectors from `lba`, as the loop builds it. */
  function Command(cid: nat, write: bool, lba: nat, n: nat, page: nat): (c: Cmd)
    requires 0 < n
  {
    Cmd((if write then IO_WRITE else IO_READ) + cid % 65536 * 65536, 1, page, lba % WORD32, lba / WORD32, n - 1)
  }

  /** The dwords name the sectors the driver meant. */
  lemma CommandMeans(cid: nat, write: bool, lba: nat, n: nat, page: nat)
    requires 0 < n <= 65536 && lba < WORD
    ensures var c := Command(cid, write, lba, n, page);
            && Lba(c) == lba && Count(c) == n && Opcode(c) == (if write then IO_WRITE else IO_READ)
            && c.cdw10 < WORD32 && c.cdw11 < WORD32
  {
  }

  // ---- the controller at work ---------------------------------------------------------------

  /** The queue pair, the medium and the bounce buffer. */
  datatype World = World(s: State, disk: seq<Sector>, buf: seq<Sector>)

  function After(w: World, a: Act): (r: World)
    requires NvmeProtocol.Sized(w.s)
    ensures NvmeProtocol.Sized(r.s)
  {
    match a
    case Take => w.(s := Fetch(w.s))
    case Finish =>
      if CanPost(w.s) && Executable(w.s.inflight[0], w.disk, w.buf) then
        World(Post(w.s, 0), DiskAfter(w.s.inflight[0], w.disk, w.buf), BufAfter(w.s.inflight[0], w.disk, w.buf))
      else w
    case Fail(status, disk, buf) =>
      if CanPost(w.s) && 0 < status && |disk| == |w.disk| && |buf| == |w.buf| then World(Post(w.s, status), disk, buf)
      else w
  }

  /** Command `c` was issued on `was` and no command was ever given up on:
      either the controller has not acted on it, or it has posted it, and a
      clean status means it was carried out, once. */
  ghost predicate Pending(w: World, c: Cmd, was: World) {
    && Inv(w.s) && w.s.waiting && w.s.lost == 0 && w.s.log == was.s.log + [c]
    && |w.disk| == |was.disk| && |w.buf| == |was.buf|
    && if |w.s.done| == w.s.consumed then w.disk == was.disk && w.buf == was.buf
       else w.s.cq[w.s.head].status == 0 ==>
              && Executable(c, was.disk, was.buf) && w.disk == DiskAfter(c, was.disk, was.buf)
              && w.buf == BufAfter(c, was.disk, was.buf)
  }

  lemma PendingInflight(w: World, c: Cmd, was: World)
    requires Pending(w, c, was)
    ensures w.s.consumed == |was.s.log| && |w.s.done| <= w.s.consumed + 1
    ensures w.s.inflight != [] ==> |w.s.done| == w.s.consumed && w.s.inflight == [c]
  {
    var s := w.s;
    if s.inflight != [] { assert (s.done + s.inflight)[|s.done|] == s.log[..|s.done| + |s.inflight|][|s.done|]; }
  }

  lemma PendingSized(w: World, c: Cmd, was: World)
    requires Pending(w, c, was)
    ensures NvmeProtocol.Sized(w.s)
  {
  }

  lemma TakePending(w: World, c: Cmd, was: World)
    requires Pending(w, c, was)
    ensures Pending(w.(s := Fetch(w.s)), c, was)
  {
    FetchKeeps(w.s);
  }

  lemma PostPending(w: World, c: Cmd, was: World, status: nat, disk: seq<Sector>, buf: seq<Sector>)
    requires Pending(w, c, was) && CanPost(w.s) && |disk| == |was.disk| && |buf| == |was.buf|
    requires status == 0 ==> Executable(c, was.disk, was.buf)
    requires status == 0 ==> disk == DiskAfter(c, was.disk, was.buf) && buf == BufAfter(c, was.disk, was.buf)
    ensures Pending(World(Post(w.s, status), disk, buf), c, was)
  {
    PendingInflight(w, c, was);
    PostKeeps(w.s, status);
    PostedAtHead(w.s, status);
  }

  /** Whatever the controller does, in whatever order. */
  lemma ActKeeps(w: World, c: Cmd, was: World, a: Act)
    requires Pending(w, c, was)
    ensures Pending(After(w, a), c, was)
  {
    if a.Take? {
      TakePending(w, c, was);
      assert After(w, a) == w.(s := Fetch(w.s));
    } else if After(w, a) != w {
      PendingInflight(w, c, was);
      var r := After(w, a);
      if a.Finish? {
        PostPending(w, c, was, 0, r.disk, r.buf);
        assert r == World(Post(w.s, 0), r.disk, r.buf);
      } else {
        PostPending(w, c, was, a.status, a.disk, a.buf);
        assert r == World(Post(w.s, a.status), a.disk, a.buf);
      }
    }
  }

  /** With nothing else outstanding a completion is posted where the host looks. */
  lemma PostedAtHead(s: State, status: nat)
    requires Inv(s) && CanPost(s) && |s.done| == s.consumed
    ensures var r := Post(s, status);
            && r.cq[r.head].status == status && r.waiting == s.waiting && r.log == s.log && r.consumed == s.consumed
            && r.lost == s.lost && |r.done| == s.consumed + 1
  {
  }

  /** A fresh command on an idle queue is pending. */
  lemma IssuePending(w: World, c: Cmd)
    requires Inv(w.s) && !w.s.waiting && w.s.lost == 0
    ensures Pending(w.(s := Issue(w.s, c)), c, w)
  {
    IssueKeeps(w.s, c);
  }

  // ---- when a completion comes ------------------------------------------------------------------

  /** One act after the other. */
  function AfterAll(w: World, acts: seq<Act>): (r: World)
    requires NvmeProtocol.Sized(w.s)
    ensures NvmeProtocol.Sized(r.s)
  {
    if acts == [] then w else After(AfterAll(w, acts[..|acts| - 1]), acts[|acts| - 1])
  }

  lemma NoActs(w: World)
    requires NvmeProtocol.Sized(w.s)
    ensures AfterAll(w, []) == w
  {
  }

  lemma {:induction false} AfterConcat(w: World, a: seq<Act>, b: seq<Act>)
    requires NvmeProtocol.Sized(w.s)
    ensures AfterAll(w, a + b) == AfterAll(AfterAll(w, a), b)
  {
    if b == [] {
      assert a + b == a;
    } else {
      assert (a + b)[..|a + b| - 1] == a + b[..|b| - 1];
      AfterConcat(w, a, b[..|b| - 1]);
    }
  }

  /** What the controller does before each of the first `n` polls. */
  function Flat(script: nat -> seq<Act>, n: nat): (acts: seq<Act>) {
    if n == 0 then [] else Flat(script, n - 1) + script(n - 1)
  }

  /** The first fetch is followed by an attempt to carry the command out, with no
      failure in between. */
  ghost predicate Obliges(acts: seq<Act>) { exists a: nat, b: nat :: TakesAt(acts, a) && FinishesAt(acts, a, b) }

  ghost predicate TakesAt(acts: seq<Act>, a: nat) {
    a < |acts| && acts[a].Take? && forall k | 0 <= k < a :: !acts[k].Take?
  }

  ghost predicate FinishesAt(acts: seq<Act>, a: nat, b: nat) {
    a < b < |acts| && acts[b].Finish? && forall k | a < k < b :: !acts[k].Fail?
  }

  /** The controller does so in time for one of the 5001 polls. */
  ghost predicate Prompt(script: nat -> seq<Act>) { exists k: nat :: k <= 5000 && InTime(script, k) }

  ghost predicate InTime(script: nat -> seq<Act>, k: nat) { Obliges(Flat(script, k + 1)) }

  /** The command is where the controller will find it. */
  ghost predicate Fresh(w: World, c: Cmd, was: World) {
    Pending(w, c, was) && |w.s.done| == w.s.consumed && w.s.inflight == []
  }

  /** The controller has it. */
  ghost predicate Held(w: World, c: Cmd, was: World) {
    Pending(w, c, was) && |w.s.done| == w.s.consumed && w.s.inflight == [c]
  }

  /** Its completion is there. */
  ghost predicate Posted(w: World, c: Cmd, was: World) {
    Pending(w, c, was) && |w.s.done| == w.s.consumed + 1
  }

  ghost predicate Clean(w: World, c: Cmd, was: World) { Posted(w, c, was) && w.s.cq[w.s.head].status == 0 }

  lemma PostedSeen(w: World, c: Cmd, was: World)
    requires Pending(w, c, was)
    ensures Seen(w.s) <==> Posted(w, c, was)
    ensures Seen(w.s) ==> w.s.cq[w.s.head].num == |was.s.log|
  {
    PendingInflight(w, c, was);
    SeenIsPosted(w.s);
  }

  /** Once a completion is posted there is nothing left to do. */
  lemma PostedStays(w: World, c: Cmd, was: World, a: Act)
    requires Posted(w, c, was)
    ensures After(w, a) == w
  {
    assert w.s.inflight == [] && w.s.sqHead == w.s.tailDoorbell;
  }

  lemma {:induction false} PostedStaysOn(w: World, c: Cmd, was: World, acts: seq<Act>)
    requires Pending(w, c, was) && Posted(w, c, was)
    ensures AfterAll(w, acts) == w
  {
    hide Pending, After;
    assert NvmeProtocol.Sized(w.s) by { PendingSized(w, c, was); }
    if acts != [] {
      PostedStaysOn(w, c, was, acts[..|acts| - 1]);
      PostedStays(w, c, was, acts[|acts| - 1]);
    }
  }

  lemma FreshStays(w: World, c: Cmd, was: World, a: Act)
    requires Fresh(w, c, was) && !a.Take?
    ensures After(w, a) == w
  {
  }

  lemma {:induction false} FreshStaysOn(w: World, c: Cmd, was: World, acts: seq<Act>)
    requires Pending(w, c, was) && Fresh(w, c, was) && forall k | 0 <= k < |acts| :: !acts[k].Take?
    ensures AfterAll(w, acts) == w
  {
    hide Pending, After;
    assert NvmeProtocol.Sized(w.s) by { PendingSized(w, c, was); }
    if acts != [] {
      FreshStaysOn(w, c, was, acts[..|acts| - 1]);
      FreshStays(w, c, was, acts[|acts| - 1]);
    }
  }

  lemma FreshTaken(w: World, c: Cmd, was: World)
    requires Fresh(w, c, was)
    ensures Held(After(w, Take), c, was)
  {
    hide Tags;
    TakePending(w, c, was);
    var s := w.s;
    Distinct(|s.done|, |s.log|, s.n);
    FetchInOrder(s);
    assert s.sq[Slot(|s.done|, s.n)] == s.log[|s.done|];
  }

  lemma HeldStays(w: World, c: Cmd, was: World)
    requires Held(w, c, was)
    ensures After(w, Take) == w
  {
  }

  lemma HeldCanPost(w: World, c: Cmd, was: World)
    requires Held(w, c, was)
    ensures CanPost(w.s)
  {
    NextIs(|w.s.done|, w.s.n);
    Distinct(w.s.consumed, w.s.consumed + 1, w.s.n);
  }

  lemma HeldFinishes(w: World, c: Cmd, was: World)
    requires Held(w, c, was) && Executable(c, was.disk, was.buf)
    ensures Clean(After(w, Finish), c, was)
  {
    hide Executable, DiskAfter, BufAfter, Inv;
    assert NvmeProtocol.Sized(w.s) by { PendingSized(w, c, was); }
    HeldCanPost(w, c, was);
    ActKeeps(w, c, was, Finish);
    PostedAtHead(w.s, 0);
  }

  /** Until the controller fails the command it holds it or has carried it out. */
  lemma {:induction false} HeldOn(w: World, c: Cmd, was: World, acts: seq<Act>)
    requires Pending(w, c, was) && Held(w, c, was) && Executable(c, was.disk, was.buf)
    requires forall k | 0 <= k < |acts| :: !acts[k].Fail?
    ensures Pending(AfterAll(w, acts), c, was)
    ensures Held(AfterAll(w, acts), c, was) || Clean(AfterAll(w, acts), c, was)
  {
    hide Pending, After, Held, Clean, Executable;
    assert NvmeProtocol.Sized(w.s) by { PendingSized(w, c, was); }
    if acts != [] {
      HeldOn(w, c, was, acts[..|acts| - 1]);
      HeldStep(AfterAll(w, acts[..|acts| - 1]), c, was, acts[|acts| - 1]);
    }
  }

  lemma HeldStep(w: World, c: Cmd, was: World, a: Act)
    requires Pending(w, c, was) && (Held(w, c, was) || Clean(w, c, was)) && Executable(c, was.disk, was.buf) && !a.Fail?
    ensures Pending(After(w, a), c, was) && (Held(After(w, a), c, was) || Clean(After(w, a), c, was))
    ensures a.Finish? ==> Clean(After(w, a), c, was)
  {
    hide Pending, After, Executable;
    assert NvmeProtocol.Sized(w.s) by { PendingSized(w, c, was); }
    ActKeeps(w, c, was, a);
    if Clean(w, c, was) {
      PostedStays(w, c, was, a);
    } else if a.Take? {
      HeldStays(w, c, was);
    } else {
      HeldFinishes(w, c, was);
    }
  }

  /** Acts that oblige carry the command out. */
  lemma ObligedClean(w: World, c: Cmd, was: World, acts: seq<Act>)
    requires Pending(w, c, was) && Fresh(w, c, was) && Executable(c, was.disk, was.buf) && Obliges(acts)
    ensures NvmeProtocol.Sized(w.s) && Clean(AfterAll(w, acts), c, was)
  {
    hide Pending, After, Held, Fresh, AfterAll, Executable;
    PendingSized(w, c, was);
    var a: nat, b: nat :| TakesAt(acts, a) && FinishesAt(acts, a, b);
    var w1 := After(w, Take);
    FreshStaysOn(w, c, was, acts[..a]);
    OneMore(w, acts, a);
    FreshTaken(w, c, was);
    HeldPending(w1, c, was);
    HeldOn(w1, c, was, acts[a + 1..b]);
    var w2 := AfterAll(w1, acts[a + 1..b]);
    HeldStep(w2, c, was, acts[b]);
    Split(w, acts, a + 1, b);
    OneMore(w, acts, b);
    var w3 := After(w2, acts[b]);
    Split(w, acts, b + 1, |acts|);
    assert acts[..|acts|] == acts;
    PostedStaysOn(w3, c, was, acts[b + 1..]);
  }

  lemma HeldPending(w: World, c: Cmd, was: World)
    requires Held(w, c, was)
    ensures Pending(w, c, was)
  {
  }

  lemma OneMore(w: World, acts: seq<Act>, a: nat)
    requires NvmeProtocol.Sized(w.s) && a < |acts|
    ensures AfterAll(w, acts[..a + 1]) == After(AfterAll(w, acts[..a]), acts[a])
  {
    assert acts[..a + 1][..a] == acts[..a];
  }

  lemma Split(w: World, acts: seq<Act>, a: nat, b: nat)
    requires NvmeProtocol.Sized(w.s) && a <= b <= |acts|
    ensures AfterAll(w, acts[..b]) == AfterAll(AfterAll(w, acts[..a]), acts[a..b])
  {
    assert acts[..b] == acts[..a] + acts[a..b];
    AfterConcat(w, acts[..a], acts[a..b]);
  }

  lemma {:induction false} FlatMore(w: World, script: nat -> seq<Act>, a: nat, b: nat) returns (rest: seq<Act>)
    requires NvmeProtocol.Sized(w.s) && a <= b
    ensures AfterAll(w, Flat(script, b)) == AfterAll(AfterAll(w, Flat(script, a)), rest)
    decreases b
  {
    if a == b {
      rest := [];
    } else {
      var front := FlatMore(w, script, a, b - 1);
      rest := front + script(b - 1);
      AfterConcat(w, Flat(script, b - 1), script(b - 1));
      AfterConcat(AfterAll(w, Flat(script, a)), front, script(b - 1));
    }
  }

  /** A completion seen at poll `t` is the one that is there at every later poll,
      and at poll `t` if it is there earlier. */
  lemma SeenOnce(w: World, c: Cmd, was: World, script: nat -> seq<Act>, t: nat, k: nat)
    requires NvmeProtocol.Sized(w.s) && t <= k && Pending(AfterAll(w, Flat(script, t)), c, was)
    requires Seen(AfterAll(w, Flat(script, t)).s)
    ensures AfterAll(w, Flat(script, k)) == AfterAll(w, Flat(script, t))
  {
    hide Pending, AfterAll, Flat;
    var rest := FlatMore(w, script, t, k);
    PostedSeen(AfterAll(w, Flat(script, t)), c, was);
    PostedStaysOn(AfterAll(w, Flat(script, t)), c, was, rest);
  }

  /** Where polling stops: `t` polls were made, the last with the result `seen`,
      those before in vain. */
  ghost predicate Polled(w: World, now: World, c: Cmd, was: World, script: nat -> seq<Act>, t: nat, seen: bool) {
    && NvmeProtocol.Sized(w.s) && 0 < t <= 5001 && now == AfterAll(w, Flat(script, t)) && Pending(now, c, was)
    && (seen <==> Seen(now.s)) && (!seen ==> t == 5001)
  }

  /** So many polls were made. */
  ghost predicate Waited(w: World, now: World, c: Cmd, was: World, script: nat -> seq<Act>, t: nat) {
    NvmeProtocol.Sized(w.s) && now == AfterAll(w, Flat(script, t)) && Pending(now, c, was)
  }

  lemma WaitedNone(w: World, c: Cmd, was: World, script: nat -> seq<Act>)
    requires Pending(w, c, was)
    ensures Waited(w, w, c, was, script, 0)
  {
  }

  lemma WaitedMore(w: World, before: World, now: World, c: Cmd, was: World, script: nat -> seq<Act>, t: nat)
    requires Waited(w, before, c, was, script, t) && NvmeProtocol.Sized(before.s)
    requires now == AfterAll(before, script(t)) && Pending(now, c, was)
    ensures Waited(w, now, c, was, script, t + 1)
  {
    hide Pending, AfterAll;
    AfterConcat(w, Flat(script, t), script(t));
  }

  lemma WaitedStops(w: World, now: World, c: Cmd, was: World, script: nat -> seq<Act>, t: nat)
    requires Waited(w, now, c, was, script, t) && NvmeProtocol.Sized(now.s) && 0 < t <= 5001
    ensures Seen(now.s) || t == 5001 ==> Polled(w, now, c, was, script, t, Seen(now.s))
  {
    hide Pending, AfterAll, Flat;
  }

  /** Polling ends in vain exactly if nothing was posted by the last poll. */
  lemma PolledExactly(w: World, now: World, c: Cmd, was: World, script: nat -> seq<Act>, t: nat, seen: bool)
    requires Polled(w, now, c, was, script, t, seen)
    ensures seen <==> Seen(AfterAll(w, Flat(script, 5001)).s)
  {
    hide AfterAll, Flat;
    if seen { SeenOnce(w, c, was, script, t, 5001); }
  }

  lemma PromptSeen(w: World, now: World, c: Cmd, was: World, script: nat -> seq<Act>, t: nat, seen: bool)
    requires Polled(w, now, c, was, script, t, seen) && Pending(w, c, was) && Fresh(w, c, was) && Prompt(script)
    requires Executable(c, was.disk, was.buf)
    ensures seen && Clean(now, c, was)
  {
    hide AfterAll, Flat, Obliges, Executable, Pending, Fresh;
    var k: nat :| k <= 5000 && InTime(script, k);
    var at := AfterAll(w, Flat(script, k + 1));
    ObligedClean(w, c, was, Flat(script, k + 1));
    CleanPending(at, c, was);
    PostedSeen(at, c, was);
    if k + 1 <= t { SeenOnce(w, c, was, script, k + 1, t); } else { SeenOnce(w, c, was, script, t, k + 1); }
  }

  lemma CleanPending(w: World, c: Cmd, was: World)
    requires Clean(w, c, was)
    ensures Pending(w, c, was)
  {
  }

  /** A command just issued on an idle queue has not been fetched. */
  lemma IssueFresh(w: World, c: Cmd)
    requires Inv(w.s) && !w.s.waiting && w.s.lost == 0
    ensures Fresh(w.(s := Issue(w.s, c)), c, w)
  {
    IssuePending(w, c);
  }

  /** What consuming the completion establishes. */
  ghost predicate Settled(w: World, c: Cmd, was: World, clean: bool) {
    && Inv(w.s) && !w.s.waiting && w.s.lost == 0 && w.s.log == was.s.log + [c] && w.s.done == w.s.log
    && |w.disk| == |was.disk| && |w.buf| == |was.buf|
    && (clean ==> Executable(c, was.disk, was.buf)
                  && w.disk == DiskAfter(c, was.disk, was.buf) && w.buf == BufAfter(c, was.disk, was.buf))
  }

  /** What giving up leaves: one command lost, and the rings still in order if
      they have room for it beside the next. */
  ghost predicate GivenUp(w: World, c: Cmd, was: World) {
    w.s.lost == 1 && !w.s.waiting && w.s.log == was.s.log + [c] && (w.s.n > 2 ==> Inv(w.s))
  }

  lemma GiveUpSettles(w: World, c: Cmd, was: World)
    requires Pending(w, c, was)
    ensures GivenUp(w.(s := GiveUp(w.s)), c, was)
  {
    if w.s.n > 2 { GiveUpKeeps(w.s); }
  }

  lemma ConsumeSettles(w: World, c: Cmd, was: World)
    requires Pending(w, c, was) && Seen(w.s)
    ensures Settled(w.(s := Consume(w.s)), c, was, w.s.cq[w.s.head].status == 0)
  {
    PendingInflight(w, c, was);
    SeenIsPosted(w.s);
    ConsumeKeeps(w.s);
    assert w.s.done == w.s.log[..|w.s.done|] == w.s.log;
  }

  // ---- sectors ------------------------------------------------------------------------------

  predicate Within(disk: seq<Sector>, lba: nat, n: nat) { n == 0 || lba + n <= |disk| }

  /** The medium with `data` written from sector `lba` on. */
  function Written(disk: seq<Sector>, lba: nat, data: seq<Sector>): (r: seq<Sector>)
    requires Within(disk, lba, |data|)
    ensures |r| == |disk|
  {
    if data == [] then disk else disk[..lba] + data + disk[lba + |data|..]
  }

  /** The `n` sectors from `lba` on. */
  function Stored(disk: seq<Sector>, lba: nat, n: nat): (r: seq<Sector>)
    requires Within(disk, lba, n)
    ensures |r| == n
  {
    if n == 0 then [] else disk[lba..lba + n]
  }

  lemma WrittenMore(disk: seq<Sector>, lba: nat, a: seq<Sector>, b: seq<Sector>)
    requires Within(disk, lba, |a|) && 0 < |b| && lba + |a| + |b| <= |disk|
    ensures Within(disk, lba, |a + b|) && Written(Written(disk, lba, a), lba + |a|, b) == Written(disk, lba, a + b)
  {
  }

  lemma StoredMore(disk: seq<Sector>, lba: nat, m: nat, n: nat)
    requires Within(disk, lba, m) && 0 < n && lba + m + n <= |disk|
    ensures Within(disk, lba, m + n) && Stored(disk, lba, m) + Stored(disk, lba + m, n) == Stored(disk, lba, m + n)
  {
  }

  /** A clean completion of the loop's command moved the chunk. */
  lemma ChunkMoves(cid: nat, write: bool, lba: nat, n: nat, page: nat, disk: seq<Sector>, buf: seq<Sector>)
    requires 0 < n <= CHUNK && lba < WORD && Executable(Command(cid, write, lba, n, page), disk, buf)
    ensures lba + n <= |disk| && n <= |buf|
    ensures var c := Command(cid, write, lba, n, page);
            && DiskAfter(c, disk, buf) == (if write then Written(disk, lba, buf[..n]) else disk)
            && (!write ==> BufAfter(c, disk, buf)[..n] == Stored(disk, lba, n))
  {
    CommandMeans(cid, write, lba, n, page);
  }

  lemma ChunkSettled(w: World, was: World, cid: nat, write: bool, lba: nat, n: nat, page: nat, clean: bool)
    requires 0 < n <= CHUNK && lba < WORD && Settled(w, Command(cid, write, lba, n, page), was, clean)
    ensures Inv(w.s) && !w.s.waiting && w.s.lost == 0 && |w.buf| == |was.buf| && |w.disk| == |was.disk|
    ensures clean ==>
              && lba + n <= |was.disk| && n <= |was.buf|
              && w.disk == (if write then Written(was.disk, lba, was.buf[..n]) else was.disk)
              && (!write ==> w.buf[..n] == Stored(was.disk, lba, n))
  {
    hide Inv;
    if clean { ChunkMoves(cid, write, lba, n, page, was.disk, was.buf); }
  }

  lemma ChunkExecutable(cid: nat, write: bool, lba: nat, n: nat, page: nat, disk: seq<Sector>, buf: seq<Sector>)
    requires 0 < n <= CHUNK && lba < WORD && lba + n <= |disk| && n <= |buf|
    ensures Executable(Command(cid, write, lba, n, page), disk, buf)
  {
    CommandMeans(cid, write, lba, n, page);
  }

  /** How far a transfer has come: `off` sectors moved, the rest as it was. */
  ghost predicate Moved(write: bool, start: nat, off: nat, disk: seq<Sector>, p: seq<Sector>, disk0: seq<Sector>,
                        p0: seq<Sector>) {
    && off <= |p| == |p0| && Within(disk0, start, off)
    && if write then p == p0 && disk == Written(disk0, start, p0[..off])
       else disk == disk0 && p[..off] == Stored(disk0, start, off) && p[off..] == p0[off..]
  }

  lemma MovedSize(write: bool, start: nat, off: nat, disk: seq<Sector>, p: seq<Sector>, disk0: seq<Sector>,
                  p0: seq<Sector>)
    requires Moved(write, start, off, disk, p, disk0, p0)
    ensures |disk| == |disk0|
  {
  }

  /** The controller is prompt with each chunk of so many sectors. */
  ghost predicate AllPrompt(script: nat -> nat -> seq<Act>, sectors: nat) {
    forall k: nat | 8 * k < sectors :: Prompt(script(k))
  }

  lemma MovedNone(write: bool, start: nat, disk: seq<Sector>, p: seq<Sector>)
    ensures Moved(write, start, 0, disk, p, disk, p)
  {
  }

  lemma MovedWrite(start: nat, off: nat, n: nat, disk: seq<Sector>, p: seq<Sector>, disk0: seq<Sector>, p0: seq<Sector>)
    requires Moved(true, start, off, disk, p, disk0, p0) && 0 < n && off + n <= |p| && start + off + n <= |disk|
    ensures Moved(true, start, off + n, Written(disk, start + off, p[off..off + n]), p, disk0, p0)
  {
    WrittenMore(disk0, start, p0[..off], p0[off..off + n]);
    assert p0[..off + n] == p0[..off] + p0[off..off + n];
  }

  lemma MovedRead(start: nat, off: nat, n: nat, disk: seq<Sector>, p: seq<Sector>, q: seq<Sector>,
                  disk0: seq<Sector>, p0: seq<Sector>)
    requires Moved(false, start, off, disk, p, disk0, p0) && 0 < n && off + n <= |p| && start + off + n <= |disk|
    requires q == p[..off] + Stored(disk, start + off, n) + p[off + n..]
    ensures Moved(false, start, off + n, disk, q, disk0, p0)
  {
    StoredMore(disk0, start, off, n);
    assert q[..off + n] == p[..off] + Stored(disk, start + off, n);
    assert p[off + n..] == p[off..][n..];
  }

  lemma NoWrap(lba: nat, n: nat)
    requires lba + n < WORD
    ensures (lba + n) % WORD == lba + n
  {
  }

  class Nvme {
    // shared memory and registers
    const n: nat
    const page: nat
    var sq: seq<Cmd>
    var cq: seq<Cqe>
    var tailDoorbell: nat
    var headDoorbell: nat
    var buf: seq<Sector>
    // the driver
    var tail: nat
    var head: nat
    var phase: nat
    var cid: nat
    const inited: bool
    // the controller
    var sqHead: nat
    var cqTail: nat
    var cqPhase: nat
    var inflight: seq<Cmd>
    var done: seq<Cmd>
    var disk: seq<Sector>
    // history
    ghost var waiting: bool
    ghost var log: seq<Cmd>
    ghost var consumed: nat
    ghost var lost: nat

    ghost function Queue(): (s: State)
      reads this
    {
      State(n, sq, cq, tailDoorbell, headDoorbell, tail, head, phase, waiting, sqHead, cqTail, cqPhase, inflight,
            log, done, consumed, lost)
    }

    ghost function Now(): (w: World)
      reads this
    {
      World(Queue(), disk, buf)
    }

    /** Idle, with every command issued so far completed and consumed. */
    ghost predicate Ready()
      reads this
    {
      Inv(Queue()) && !waiting && lost == 0 && |buf| == CHUNK && |disk| < WORD
    }

    constructor (mqes: nat, page: nat, sq: seq<Cmd>, disk: seq<Sector>, buf: seq<Sector>)
      requires 2 <= mqes && |sq| == (if mqes < 4 then mqes else 4) && |buf| == CHUNK && |disk| < WORD
      ensures Ready() && this.disk == disk && this.page == page && inited
      ensures n == (if mqes < 4 then mqes else 4) && log == [] && cid == 1
    {
      n := if mqes < 4 then mqes else 4;
      this.page, this.sq, this.disk, this.buf := page, sq, disk, buf;
      cq := seq(if mqes < 4 then mqes else 4, _ => Cqe(0, 0, 0));
      tailDoorbell, headDoorbell, tail, head, phase, cid, inited := 0, 0, 0, 0, 1, 1, true;
      sqHead, cqTail, cqPhase, inflight := 0, 0, 1, [];
      waiting, log, done, consumed, lost := false, [], [], 0, 0;
    }

    /** One step of the controller, if it is able to take it. */
    method Act(a: Act)
      requires NvmeProtocol.Sized(Queue())
      modifies this`sqHead, this`cqTail, this`cqPhase, this`inflight, this`cq, this`disk, this`buf, this`done
      ensures Now() == After(old(Now()), a)
    {
      match a
      case Take =>
        if sqHead != tailDoorbell {
          inflight := inflight + [sq[sqHead]];
          sqHead := (sqHead + 1) % n;
        }
      case Finish =>
        if inflight != [] && (cqTail + 1) % n != headDoorbell && Executable(inflight[0], disk, buf) {
          disk, buf := DiskAfter(inflight[0], disk, buf), BufAfter(inflight[0], disk, buf);
          Complete(0);
        }
      case Fail(status, d, b) =>
        if inflight != [] && (cqTail + 1) % n != headDoorbell && 0 < status && |d| == |disk| && |b| == |buf| {
          disk, buf := d, b;
          Complete(status);
        }
    }

    method Complete(status: nat)
      requires NvmeProtocol.Sized(Queue()) && CanPost(Queue())
      modifies this`cqTail, this`cqPhase, this`inflight, this`cq, this`done
      ensures Queue() == Post(old(Queue()), status)
    {
      done := done + [inflight[0]];
      cq := cq[cqTail := Cqe(cqPhase, status, |done| - 1)];
      inflight := inflight[1..];
      cqTail := (cqTail + 1) % n;
      if cqTail == 0 { cqPhase := if cqPhase == 0 then 1 else 0; }
    }

    method Acts(acts: seq<Act>, ghost c: Cmd, ghost was: World)
      requires Pending(Now(), c, was)
      modifies this`sqHead, this`cqTail, this`cqPhase, this`inflight, this`cq, this`disk, this`buf, this`done
      ensures Pending(Now(), c, was)
      ensures NvmeProtocol.Sized(old(Queue())) && Now() == AfterAll(old(Now()), acts)
    {
      hide Pending, After;
      PendingSized(Now(), c, was);
      var i := 0;
      while i < |acts|
        invariant 0 <= i <= |acts| && Pending(Now(), c, was) && Now() == AfterAll(old(Now()), acts[..i])
      {
        PendingSized(Now(), c, was);
        OneMore(old(Now()), acts, i);
        ActKeeps(Now(), c, was, acts[i]);
        Act(acts[i]);
        i := i + 1;
      }
      assert acts[..i] == acts;
    }

    /** Write the command and ring the tail doorbell. */
    method Ring(c: Cmd)
      requires Inv(Queue()) && !waiting && lost == 0
      modifies this`sq, this`tail, this`tailDoorbell, this`waiting, this`log
      ensures Pending(Now(), c, old(Now())) && Fresh(Now(), c, old(Now()))
      ensures NvmeProtocol.Sized(old(Queue())) && Now() == old(Now()).(s := Issue(old(Queue()), c))
    {
      hide InOrder, Tags, Pending, Fresh;
      IssuePending(Now(), c);
      IssueFresh(Now(), c);
      sq := sq[tail := c];
      tail := (tail + 1) % n;
      tailDoorbell := tail;
      waiting, log := true, log + [c];
      assert Now() == old(Now()).(s := Issue(old(Queue()), c));
    }

    /** Poll until the entry at the head turns, or the tries run out. */
    method Poll(script: nat -> seq<Act>, ghost c: Cmd, ghost was: World) returns (seen: bool, ghost polls: nat)
      requires Pending(Now(), c, was)
      modifies this`sqHead, this`cqTail, this`cqPhase, this`inflight, this`cq, this`disk, this`buf, this`done
      ensures Polled(old(Now()), Now(), c, was, script, polls, seen)
    {
      hide Pending, AfterAll, Flat, Polled, Waited;
      ghost var w := Now();
      PendingSized(w, c, was);
      WaitedNone(w, c, was, script);
      var tries: nat := 0;
      while true
        invariant Pending(Now(), c, was) && tries <= CMD_TIMEOUT_MS && Waited(w, Now(), c, was, script, tries)
        decreases CMD_TIMEOUT_MS - tries
      {
        ghost var before := Now();
        Acts(script(tries), c, was);
        WaitedMore(w, before, Now(), c, was, script, tries);
        PendingSized(Now(), c, was);
        WaitedStops(w, Now(), c, was, script, tries + 1);
        if cq[head].phase == phase { return true, tries + 1; }
        if tries == CMD_TIMEOUT_MS { return false, tries + 1; }
        tries := tries + 1;
      }
    }

    /** Take the completion at the head. */
    method Reap(ghost c: Cmd, ghost was: World) returns (status: nat)
      requires Pending(Now(), c, was) && Seen(Queue())
      modifies this`head, this`headDoorbell, this`phase, this`waiting, this`consumed
      ensures Settled(Now(), c, was, status == 0) && NvmeProtocol.Sized(old(Queue())) && status == old(cq[head].status)
    {
      hide Settled, Pending, Consume;
      PendingSized(Now(), c, was);
      ConsumeSettles(Now(), c, was);
      status := Advance();
      assert Now() == old(Now()).(s := Consume(old(Queue())));
    }

    method Advance() returns (status: nat)
      requires NvmeProtocol.Sized(Queue())
      modifies this`head, this`headDoorbell, this`phase, this`waiting, this`consumed
      ensures Queue() == Consume(old(Queue())) && status == old(cq[head].status)
    {
      status := cq[head].status;
      head := (head + 1) % n;
      headDoorbell := head;
      if head == 0 { phase := if phase == 0 then 1 else 0; }
      waiting, consumed := false, consumed + 1;
    }

    /** Give up on the command. */
    method Forget(ghost c: Cmd, ghost was: World)
      requires Pending(Now(), c, was)
      modifies this`waiting, this`lost
      ensures GivenUp(Now(), c, was)
    {
      hide Pending, GivenUp;
      GiveUpSettles(Now(), c, was);
      waiting, lost := false, lost + 1;
      assert Now() == old(Now()).(s := GiveUp(old(Queue())));
    }

    /** The command `Submit` issues. */
    function Filled(opcode: nat, nsid: nat, cdw10: nat, cdw11: nat, cdw12: nat, prp1: nat): (c: Cmd)
      reads this
    {
      Cmd(opcode + cid % 65536 * 65536, nsid, prp1, cdw10, cdw11, cdw12)
    }

    /** Issue one command and poll for its completion, while the controller
        does whatever `script` says before each poll. It times out exactly if
        nothing is posted by the last of 5001 polls. Otherwise the completion
        consumed is this command's, the answer is 0 exactly if its status is,
        and then the command was carried out, once. A controller that is prompt
        makes the answer 0. After a timeout the command is one given up on; a
        queue of more than two entries is still in order. */
    method Submit(opcode: nat, nsid: nat, cdw10: nat, cdw11: nat, cdw12: nat, prp1: nat, script: nat -> seq<Act>)
      returns (r: int, ghost timedOut: bool)
      requires Ready()
      modifies this
      ensures (timedOut ==> r == -1) && cid == old(cid) + 1
      ensures timedOut ==> GivenUp(Now(), old(Filled(opcode, nsid, cdw10, cdw11, cdw12, prp1)), old(Now()))
      ensures !timedOut ==>
                && Settled(Now(), old(Filled(opcode, nsid, cdw10, cdw11, cdw12, prp1)), old(Now()), r == 0)
                && old(head) < |cq| && cq[old(head)].num == |old(log)| && (r == 0 || r == -1)
                && (r == 0 <==> cq[old(head)].status == 0)
      ensures NvmeProtocol.Sized(old(Queue()))
              && var c := old(Filled(opcode, nsid, cdw10, cdw11, cdw12, prp1));
                 timedOut <==> !Seen(AfterAll(old(Now()).(s := Issue(old(Queue()), c)), Flat(script, 5001)).s)
      ensures Prompt(script) ==>
                var c := old(Filled(opcode, nsid, cdw10, cdw11, cdw12, prp1));
                Executable(c, old(disk), old(buf)) ==> !timedOut && r == 0
    {
      hide Pending, Settled, GivenUp, Inv, Prompt, Executable, AfterAll, Flat, Fresh;
      ghost var was := Now();
      var c := Cmd(opcode + cid % 65536 * 65536, nsid, prp1, cdw10, cdw11, cdw12);
      cid := cid + 1;
      Ring(c);
      ghost var w := Now();
      ghost var h := head;
      var seen, polls := Poll(script, c, was);
      PolledExactly(w, Now(), c, was, script, polls, seen);
      if Prompt(script) && Executable(c, was.disk, was.buf) { PromptSeen(w, Now(), c, was, script, polls, seen); }
      if !seen {
        Forget(c, was);
        return -1, true;
      }
      PostedSeen(Now(), c, was);
      var status := Reap(c, was);
      return if status == 0 then 0 else -1, false;
    }

    /** One turn of the loop: at most one page through the bounce buffer. */
    method Chunk(lba: nat, n: nat, write: bool, script: nat -> seq<Act>) returns (r: int, ghost timedOut: bool)
      requires Ready() && 0 < n <= CHUNK && lba < WORD
      modifies this
      ensures (!timedOut ==> Ready()) && (timedOut ==> r != 0) && (r == 0 || r == -1)
      ensures r == 0 ==>
                && lba + n <= old(|disk|) && |buf| == CHUNK
                && disk == (if write then Written(old(disk), lba, old(buf[..n])) else old(disk))
                && (!write ==> buf[..n] == Stored(old(disk), lba, n))
      ensures Prompt(script) && lba + n <= old(|disk|) ==> r == 0
    {
      hide Prompt, Settled, Executable, AfterAll, Flat, GivenUp, Inv, Seen, Issue;
      ghost var was, c := Now(), Command(cid, write, lba, n, page);
      r, timedOut := Submit(if write then IO_WRITE else IO_READ, 1, lba % WORD32, lba / WORD32, n - 1, page, script);
      if !timedOut { ChunkSettled(Now(), was, old(cid), write, lba, n, page, r == 0); }
      if lba + n <= |was.disk| { ChunkExecutable(old(cid), write, lba, n, page, was.disk, was.buf); }
    }

    /** Fill the front of the bounce page. */
    method ToBuffer(p: array<Sector>, off: nat, n: nat)
      requires Ready() && n <= CHUNK && off + n <= p.Length
      modifies this`buf
      ensures Ready() && buf[..n] == p[off..off + n]
    {
      buf := p[off..off + n] + buf[n..];
    }

    method FromBuffer(p: array<Sector>, off: nat, n: nat)
      requires |buf| == CHUNK && n <= CHUNK && off + n <= p.Length
      modifies p
      ensures p[..] == old(p[..off]) + buf[..n] + old(p[off + n..])
    {
      var i := 0;
      while i < n
        invariant 0 <= i <= n
        invariant forall k | 0 <= k < p.Length :: p[k] == if off <= k < off + i then buf[k - off] else old(p[k])
      {
        p[off + i] := buf[i];
        i := i + 1;
      }
    }

    method WriteChunk(start: nat, p: array<Sector>, off: nat, n: nat, script: nat -> seq<Act>,
                      ghost disk0: seq<Sector>, ghost p0: seq<Sector>) returns (r: int, ghost timedOut: bool)
      requires Ready() && 0 < n <= CHUNK && off + n <= p.Length && start + off < WORD
      requires Moved(true, start, off, disk, p[..], disk0, p0)
      modifies this
      ensures (!timedOut ==> Ready()) && (timedOut ==> r != 0) && (r == 0 || r == -1)
      ensures r == 0 ==> start + off + n <= |disk| && Moved(true, start, off + n, disk, p[..], disk0, p0)
      ensures Prompt(script) && start + off + n <= old(|disk|) ==> r == 0
    {
      hide Prompt, Inv, Moved, Written;
      ToBuffer(p, off, n);
      ghost var disk1 := disk;
      r, timedOut := Chunk(start + off, n, true, script);
      if r == 0 {
        MovedWrite(start, off, n, disk1, p[..], disk0, p0);
        assert p[..][off..off + n] == p[off..off + n];
      }
    }

    method ReadChunk(start: nat, p: array<Sector>, off: nat, n: nat, script: nat -> seq<Act>,
                     ghost disk0: seq<Sector>, ghost p0: seq<Sector>) returns (r: int, ghost timedOut: bool)
      requires Ready() && 0 < n <= CHUNK && off + n <= p.Length && start + off < WORD
      requires Moved(false, start, off, disk, p[..], disk0, p0)
      modifies this, p
      ensures (!timedOut ==> Ready()) && (timedOut ==> r != 0) && (r == 0 || r == -1)
      ensures r == 0 ==> start + off + n <= |disk| && Moved(false, start, off + n, disk, p[..], disk0, p0)
      ensures Prompt(script) && start + off + n <= old(|disk|) ==> r == 0
    {
      hide Prompt;
      ghost var disk1, p1 := disk, p[..];
      r, timedOut := Chunk(start + off, n, false, script);
      if r == 0 {
        FromBuffer(p, off, n);
        assert p[..] == p1[..off] + Stored(disk1, start + off, n) + p1[off + n..];
        MovedRead(start, off, n, disk1, p1, p[..], disk0, p0);
      }
    }

    method MoveChunk(write: bool, start: nat, p: array<Sector>, off: nat, n: nat, script: nat -> seq<Act>,
                     ghost disk0: seq<Sector>, ghost p0: seq<Sector>) returns (r: int, ghost timedOut: bool)
      requires Ready() && 0 < n <= CHUNK && off + n <= p.Length && start + off < WORD
      requires Moved(write, start, off, disk, p[..], disk0, p0)
      modifies this, p
      ensures (!timedOut ==> Ready()) && (timedOut ==> r != 0) && (r == 0 || r == -1)
      ensures r == 0 ==> start + off + n <= |disk| && Moved(write, start, off + n, disk, p[..], disk0, p0)
      ensures Prompt(script) && start + off + n <= old(|disk|) ==> r == 0
    {
      hide Prompt, Moved, Inv;
      if write {
        r, timedOut := WriteChunk(start, p, off, n, script, disk0, p0);
      } else {
        r, timedOut := ReadChunk(start, p, off, n, script, disk0, p0);
      }
    }

    /** Read or write `p.Length` sectors from `start` on. Success means that
        exactly those sectors were moved, in order, and nothing else was. A
        transfer that lies on the disk succeeds if the controller is prompt with
        each chunk. */
    method Rw(start: nat, p: array<Sector>, write: bool, script: nat -> nat -> seq<Act>)
      returns (r: int, ghost timedOut: bool)
      requires Ready() && start < WORD
      modifies this, p
      ensures (!timedOut ==> Ready()) && (timedOut ==> r != 0) && (r == 0 || r == -1) && (!inited ==> r == -1)
      ensures r == 0 ==> Moved(write, start, p.Length, disk, p[..], old(disk), old(p[..]))
      ensures inited && AllPrompt(script, p.Length) && start + p.Length <= old(|disk|) ==> r == 0
    {
      hide Inv, Moved, Prompt;
      if !inited { return -1, false; }
      var lba, off: nat, k: nat := start, 0, 0;
      MovedNone(write, start, disk, p[..]);
      while off < p.Length
        invariant off <= p.Length && Ready() && lba == start + off && lba < WORD && (off == 8 * k || off == p.Length)
        invariant |disk| == old(|disk|)
        invariant Moved(write, start, off, disk, p[..], old(disk), old(p[..]))
      {
        var n := if p.Length - off > CHUNK then CHUNK else p.Length - off;
        r, timedOut := MoveChunk(write, start, p, off, n, script(k), old(disk), old(p[..]));
        if r != 0 { return; }
        MovedSize(write, start, off + n, disk, p[..], old(disk), old(p[..]));
        NoWrap(lba, n);
        lba := (lba + n) % WORD;
        off, k := off + n, k + 1;
      }
      return 0, false;
    }
  }
}
