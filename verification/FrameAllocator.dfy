/** The bitmap frame allocator: which frames are free, owned or reserved. */
module FrameAllocator {
  import opened Wrappers
  import opened Words
  import opened Bitmaps

  const FRAME_SIZE := 4096
  const BITMAP_MAX := 0x1_0000_0000
  const LOW_CUTOFF := 0x10_0000
  const BOOT_STACK_PAGES := 16

  // ---- what the allocator is about ------------------------------------------

  /** A frame is free, owned (handed out) or, being neither, reserved. */
  datatype Pool = Pool(free: set<nat>, owned: set<nat>, next: nat) {
    ghost predicate Sound() {
      && free !! owned
      && next < TOTAL
      && (forall i | i in free :: i < TOTAL)
      && (forall i | i in owned :: i < TOTAL)
    }

    ghost predicate Reserved(i: nat) { i < TOTAL && i !in free && i !in owned }
  }

  /** The `k`-th frame looked at when scanning from `next`. */
  function Nth(next: nat, k: nat): (i: nat) { if next + k < TOTAL then next + k else next + k - TOTAL }

  lemma NthWraps(next: nat, k: nat)
    requires next < TOTAL && k < TOTAL
    ensures Nth(next, k) == (next + k) % TOTAL
  {
  }

  /** How far ahead of `next`, cyclically, frame `i` lies. */
  function Ahead(next: nat, i: nat): (k: nat)
    requires next < TOTAL
  {
    if next <= i then i - next else i + TOTAL - next
  }

  /** One frame, the first free one from `next` on, cyclically. */
  ghost predicate AllocStep(s: Pool, s': Pool, r: Option<nat>)
    requires s.next < TOTAL
  {
    match r
    case None => s.free == {} && s' == s
    case Some(a) =>
      var i := a / FRAME_SIZE;
      && a == i * FRAME_SIZE
      && i in s.free
      && (forall h: nat | h < Ahead(s.next, i) :: Nth(s.next, h) !in s.free)
      && s' == Pool(s.free - {i}, s.owned + {i}, (i + 1) % TOTAL)
  }

  /** The `n` frames from `i` on. */
  function Block(i: nat, n: nat): (b: set<nat>)
    ensures forall k: nat :: k in b <==> i <= k < i + n
  {
    set k: nat | i <= k < i + n && InBlock(i, n, k)
  }

  predicate InBlock(i: nat, n: nat, k: nat) { i <= k < i + n }

  /** A free run of `n` frames begins at `i` and stays inside [begin, end). */
  ghost predicate RunAt(free: set<nat>, begin: nat, end: nat, n: nat, i: nat) {
    begin <= i && i + n <= end && Block(i, n) <= free
  }

  ghost predicate NoRun(free: set<nat>, begin: nat, end: nat, n: nat) {
    forall i: nat :: !RunAt(free, begin, end, n, i)
  }

  /** No free run lies wholly on one side of the cursor. */
  ghost predicate NoRunOnASide(s: Pool, n: nat) { NoRun(s.free, s.next, TOTAL, n) && NoRun(s.free, 0, s.next, n) }

  /** The lowest free run of `n` frames inside [begin, end), if there is one. */
  ghost predicate ScanStep(s: Pool, s': Pool, begin: nat, end: nat, n: nat, r: Option<nat>) {
    match r
    case None => NoRun(s.free, begin, end, n) && s' == s
    case Some(a) =>
      var i := a / FRAME_SIZE;
      && a == i * FRAME_SIZE
      && RunAt(s.free, begin, end, n, i)
      && (forall j: nat | j < i :: !RunAt(s.free, begin, end, n, j))
      && s' == Pool(s.free - Block(i, n), s.owned + Block(i, n), (i + n) % TOTAL)
  }

  /** A run never crosses the cursor: the part from `next` up is searched
      first and then the part below it. */
  ghost predicate ContiguousStep(s: Pool, s': Pool, n: nat, r: Option<nat>) {
    if n == 0 || n > TOTAL then r.None? && s' == s
    else if NoRun(s.free, s.next, TOTAL, n) then ScanStep(s, s', 0, s.next, n, r)
    else r.Some? && ScanStep(s, s', s.next, TOTAL, n, r)
  }

  /** Only an owned frame can be given back. */
  ghost predicate FreeStep(s: Pool, s': Pool, phys: nat) {
    var i := phys / FRAME_SIZE;
    s' == if i in s.owned then Pool(s.free + {i}, s.owned - {i}, s.next) else s
  }

  /** Only a reserved frame can be reclaimed. */
  ghost predicate ReclaimStep(s: Pool, s': Pool, phys: nat) {
    var i := phys / FRAME_SIZE;
    s' == if s.Reserved(i) then Pool(s.free + {i}, s.owned, s.next) else s
  }

  // ---- set-up from the boot memory map ------------------------------------------

  datatype Region = Region(kind: nat, start: nat, pages: nat) {
    predicate Usable() { kind in {1, 2, 3, 4, 7, 15} }

    function End(): (e: nat) { start + pages * FRAME_SIZE }
  }

  datatype Boot = Boot(regions: seq<Region>, kernelBase: nat, kernelEnd: nat, stackTop: nat, info: nat, mapAddr: nat,
                       descSize: nat, tables: nat, tablePages: nat, extra: seq<(nat, nat)>)
  {
    /** Everything that must stay alive, as byte ranges. */
    function Holes(): (hs: seq<(nat, nat)>)
      requires stackTop >= BOOT_STACK_PAGES * FRAME_SIZE
    {
      [(kernelBase, kernelEnd),
       (stackTop - BOOT_STACK_PAGES * FRAME_SIZE, stackTop),
       (info / FRAME_SIZE * FRAME_SIZE, info / FRAME_SIZE * FRAME_SIZE + FRAME_SIZE),
       (mapAddr, mapAddr + |regions| * descSize),
       (tables, tables + tablePages * FRAME_SIZE)] + extra
    }
  }

  /** First and one-past-last frame that marking [begin, end) touches. */
  function FirstFrame(begin: nat): (i: nat) { Max(begin, LOW_CUTOFF) / FRAME_SIZE }

  function LastFrame(end: nat): (i: nat)
    ensures i <= TOTAL
  {
    (Min(end, BITMAP_MAX) + FRAME_SIZE - 1) / FRAME_SIZE
  }

  predicate Touches(begin: nat, end: nat, i: nat) { FirstFrame(begin) <= i < LastFrame(end) }

  predicate MadeFree(d: Region, i: nat) {
    d.Usable() && Max(d.start, LOW_CUTOFF) < Min(d.End(), BITMAP_MAX) && Touches(d.start, d.End(), i)
  }

  /** Free after set-up: some usable region makes it so and no hole undoes it. */
  ghost predicate InitiallyFree(b: Boot, i: nat)
    requires b.stackTop >= BOOT_STACK_PAGES * FRAME_SIZE
  {
    (exists d | d in b.regions :: MadeFree(d, i)) && forall h | h in b.Holes() :: !Touches(h.0, h.1, i)
  }

  /** No byte of a hole, from 1 MiB up to 4 GiB, lies in a free frame. */
  lemma HolesStayReserved(b: Boot, h: (nat, nat), addr: nat)
    requires b.stackTop >= BOOT_STACK_PAGES * FRAME_SIZE
    requires h in b.Holes() && h.0 <= addr < h.1 && LOW_CUTOFF <= addr < BITMAP_MAX
    ensures !InitiallyFree(b, addr / FRAME_SIZE)
  {
    assert Touches(h.0, h.1, addr / FRAME_SIZE);
  }

  /** Every free frame holds a byte of a usable region, and none is low. */
  lemma FreeComesFromUsable(b: Boot, i: nat)
    requires b.stackTop >= BOOT_STACK_PAGES * FRAME_SIZE
    requires InitiallyFree(b, i)
    ensures LOW_CUTOFF <= i * FRAME_SIZE < BITMAP_MAX
    ensures exists d :: d in b.regions && d.Usable() && d.start < (i + 1) * FRAME_SIZE && i * FRAME_SIZE < d.End()
  {
    var d :| d in b.regions && MadeFree(d, i);
    assert d.start < (i + 1) * FRAME_SIZE && i * FRAME_SIZE < d.End();
  }

  /** Frame `i` holds an address of a usable region from 1 MiB up to 4 GiB. */
  ghost predicate HasUsable(b: Boot, i: nat) {
    exists d, a: nat :: d in b.regions && UsableAt(d, a) && a / 4096 == i
  }

  predicate UsableAt(d: Region, a: nat) {
    d.kind in {1, 2, 3, 4, 7, 15} && d.start <= a < d.start + d.pages * 4096 && 0x10_0000 <= a < 0x1_0000_0000
  }

  /** Exactly these frames are free after set-up: those with a usable address that
      no hole reaches into. */
  lemma FreeExactly(b: Boot, i: nat)
    requires b.stackTop >= BOOT_STACK_PAGES * FRAME_SIZE
    ensures InitiallyFree(b, i) <==>
              HasUsable(b, i) && forall h | h in b.Holes() :: !(h.0 < (i + 1) * 4096 && i * 4096 < h.1)
  {
    hide MadeFree, Touches, UsableAt;
    if HasUsable(b, i) {
      var d, a: nat :| d in b.regions && UsableAt(d, a) && a / 4096 == i;
      UsableMakesFree(d, i, a);
    }
    if exists d | d in b.regions :: MadeFree(d, i) {
      var d :| d in b.regions && MadeFree(d, i);
      var a := FreeHasUsable(d, i);
    }
    if HasUsable(b, i) {
      forall h | h in b.Holes() ensures Touches(h.0, h.1, i) <==> h.0 < (i + 1) * 4096 && i * 4096 < h.1 {
        TouchesIs(h.0, h.1, i);
      }
    }
  }

  lemma UsableMakesFree(d: Region, i: nat, a: nat)
    requires UsableAt(d, a) && a / 4096 == i
    ensures MadeFree(d, i) && 256 <= i < TOTAL
  {
  }

  lemma FreeHasUsable(d: Region, i: nat) returns (a: nat)
    requires MadeFree(d, i)
    ensures UsableAt(d, a) && a / 4096 == i && 256 <= i < TOTAL
  {
    a := Max(Max(d.start, LOW_CUTOFF), i * FRAME_SIZE);
  }

  lemma TouchesIs(begin: nat, end: nat, i: nat)
    requires 256 <= i < TOTAL
    ensures Touches(begin, end, i) <==> begin < (i + 1) * 4096 && i * 4096 < end
  {
  }

  // ---- the allocator as the source has it ------------------------------------------

  class Allocator {
    const bitmap: Bitmap
    const owned: Bitmap
    var freeFrames: int
    var next: nat

    ghost function State(): (s: Pool)
      reads this, bitmap, owned
    {
      Pool(bitmap.members, owned.members, next)
    }

    ghost function Repr(): (r: set<object>) { {this, bitmap, bitmap.bytes, owned, owned.bytes} }

    ghost predicate Apart() { bitmap != owned && bitmap.bytes != owned.bytes }

    ghost predicate Valid()
      reads Repr()
    {
      Apart() && bitmap.Valid() && owned.Valid() && State().Sound() && freeFrames == |State().free|
    }

    constructor (b: Boot)
      requires b.stackTop >= BOOT_STACK_PAGES * FRAME_SIZE
      ensures Valid() && fresh(Repr())
      ensures State().owned == {} && next == 0
      ensures forall i: nat :: i in State().free <==> InitiallyFree(b, i)
    {
      bitmap := new Bitmap();
      owned := new Bitmap();
      freeFrames, next := 0, 0;
      new;
      MarkUsable(b.regions);
      PunchHoles(b.Holes());
      freeFrames := bitmap.Count();
    }

    /** Set or clear the bits of every frame [begin, end) touches. */
    method MarkRange(begin: nat, end: nat, free: bool)
      requires bitmap.Valid()
      modifies bitmap, bitmap.bytes
      ensures bitmap.Valid()
      ensures forall i: nat ::
              i in bitmap.members <==> if Touches(begin, end, i) then free else i in old(bitmap.members)
    {
      var first, last := FirstFrame(begin), LastFrame(end);
      var idx := first;
      while idx < last
        invariant first <= idx && bitmap.Valid()
        invariant forall i: nat :: i in bitmap.members <==>
                    if first <= i < idx && i < last then free else i in old(bitmap.members)
      {
        if free { bitmap.Set(idx); } else { bitmap.Clear(idx); }
        idx := idx + 1;
      }
    }

    method MarkUsable(regions: seq<Region>)
      requires bitmap.Valid() && bitmap.members == {}
      modifies bitmap, bitmap.bytes
      ensures bitmap.Valid()
      ensures forall i: nat :: i in bitmap.members <==> exists d | d in regions :: MadeFree(d, i)
    {
      for k := 0 to |regions|
        invariant bitmap.Valid()
        invariant forall i: nat :: i in bitmap.members <==> exists d | d in regions[..k] :: MadeFree(d, i)
      {
        var d := regions[k];
        assert forall e :: e in regions[..k + 1] <==> e in regions[..k] || e == d;
        ghost var before := bitmap.members;
        if d.Usable() {
          var start := Max(d.start, LOW_CUTOFF);
          var end := Min(d.End(), BITMAP_MAX);
          if start < end { MarkRange(start, end, true); }
        }
        forall i: nat
          ensures i in bitmap.members <==> exists e | e in regions[..k + 1] :: MadeFree(e, i)
        {
          assert i in bitmap.members <==> i in before || MadeFree(d, i);
        }
      }
      assert regions[..|regions|] == regions;
    }

    method PunchHoles(holes: seq<(nat, nat)>)
      requires bitmap.Valid()
      modifies bitmap, bitmap.bytes
      ensures bitmap.Valid()
      ensures forall i: nat :: i in bitmap.members <==>
                i in old(bitmap.members) && forall h | h in holes :: !Touches(h.0, h.1, i)
    {
      for k := 0 to |holes|
        invariant bitmap.Valid()
        invariant forall i: nat :: i in bitmap.members <==>
                    i in old(bitmap.members) && forall h | h in holes[..k] :: !Touches(h.0, h.1, i)
      {
        assert forall h :: h in holes[..k + 1] <==> h in holes[..k] || h == holes[k];
        MarkRange(holes[k].0, holes[k].1, false);
      }
      assert holes[..|holes|] == holes;
    }

    method Alloc() returns (r: Option<nat>)
      requires Valid()
      modifies Repr()
      ensures Valid() && AllocStep(old(State()), State(), r)
      ensures r.None? <==> old(State()).free == {}
    {
      hide AllocStep;
      ghost var s := State();
      for off := 0 to TOTAL
        invariant Valid() && State() == s
        invariant forall h: nat | h < off :: Nth(s.next, h) !in s.free
      {
        var idx := (next + off) % TOTAL;
        NthWraps(next, off);
        var free := bitmap.Has(idx);
        if free {
          Claim(idx);
          AllocFound(s, State(), off);
          return Some(idx * FRAME_SIZE);
        }
      }
      NothingFree(s);
      AllocNone(s);
      return None;
    }

    /** Hand out one free frame. */
    method Claim(idx: nat)
      requires Valid() && idx in State().free
      modifies Repr()
      ensures Valid() && State() == old(Pool(State().free - {idx}, State().owned + {idx}, (idx + 1) % TOTAL))
    {
      bitmap.Clear(idx);
      owned.Set(idx);
      freeFrames := freeFrames - 1;
      next := (idx + 1) % TOTAL;
    }

    method Free(phys: nat)
      requires Valid()
      modifies Repr()
      ensures Valid() && FreeStep(old(State()), State(), phys)
    {
      var idx := phys / FRAME_SIZE;
      if idx >= TOTAL { return; }
      var mine := owned.Has(idx);
      if !mine { return; }
      owned.Clear(idx);
      bitmap.Set(idx);
      freeFrames := freeFrames + 1;
    }

    method Reclaim(phys: nat)
      requires Valid()
      modifies Repr()
      ensures Valid() && ReclaimStep(old(State()), State(), phys)
    {
      var idx := phys / FRAME_SIZE;
      if idx >= TOTAL { return; }
      var isFree := bitmap.Has(idx);
      var isOwned := owned.Has(idx);
      if isFree || isOwned { return; }
      bitmap.Set(idx);
      freeFrames := freeFrames + 1;
    }

    method AllocContiguous(frames: nat) returns (r: Option<nat>)
      requires Valid()
      modifies Repr()
      ensures Valid() && ContiguousStep(old(State()), State(), frames, r)
      ensures 1 <= frames <= TOTAL ==> (r.None? <==> NoRunOnASide(old(State()), frames))
    {
      if frames == 0 || frames > TOTAL { return None; }
      ghost var s := State();
      WrapSmall(next);
      var start := next % TOTAL;
      r := ScanRun(start, TOTAL, frames);
      if r.Some? {
        FirstPart(s, State(), frames, r);
        ContiguousFailsIff(s, State(), frames, r);
        return;
      }
      if start > 0 { r := ScanRun(0, start, frames); }
      SecondPart(s, State(), frames, r);
      ContiguousFailsIff(s, State(), frames, r);
    }

    /** Find and claim the lowest run of `frames` free frames in [begin, end). */
    method ScanRun(begin: nat, end: nat, frames: nat) returns (r: Option<nat>)
      requires Valid() && end <= TOTAL && frames > 0
      modifies Repr()
      ensures Valid() && ScanStep(old(State()), State(), begin, end, frames, r)
    {
      ghost var s := State();
      var run, first, idx := 0, 0, begin;
      while idx < end
        invariant Valid() && State() == s
        invariant run > 0 ==> first + run == idx
        invariant Scanned(s.free, begin, idx, frames, run)
      {
        ScannedStep(s.free, begin, idx, frames, run);
        var free := bitmap.Has(idx);
        if free {
          if run == 0 { first := idx; }
          run := run + 1;
          if run == frames {
            ClaimRun(first, frames);
            next := (first + frames) % TOTAL;
            RunFound(s, State(), begin, end, frames, first);
            return Some(first * FRAME_SIZE);
          }
        } else {
          run := 0;
        }
        idx := idx + 1;
      }
      NoRunShrinks(s.free, begin, end, idx, frames);
      return None;
    }

    method ClaimRun(first: nat, frames: nat)
      requires Valid() && first + frames <= TOTAL && Block(first, frames) <= State().free
      modifies Repr()
      ensures Valid()
      ensures State() == old(Pool(State().free - Block(first, frames), State().owned + Block(first, frames), next))
    {
      SizeWithout(State().free, first, frames);
      ClaimBits(first, frames);
      freeFrames := freeFrames - frames;
    }

    method ClaimBits(first: nat, frames: nat)
      requires Apart() && bitmap.Valid() && owned.Valid() && first + frames <= TOTAL
      modifies bitmap, bitmap.bytes, owned, owned.bytes
      ensures bitmap.Valid() && owned.Valid()
      ensures bitmap.members == old(bitmap.members) - Block(first, frames)
      ensures owned.members == old(owned.members) + Block(first, frames)
    {
      ghost var f, o := bitmap.members, owned.members;
      for k := 0 to frames
        invariant bitmap.Valid() && owned.Valid()
        invariant bitmap.members == f - Block(first, k)
        invariant owned.members == o + Block(first, k)
      {
        var i := first + k;
        bitmap.Clear(i);
        assert bitmap.members == f - Block(first, k + 1) by { BlockGrows(f, first, k); }
        owned.Set(i);
        assert owned.members == o + Block(first, k + 1) by { BlockGrows(o, first, k); }
      }
    }
  }

  lemma NothingFree(s: Pool)
    requires s.Sound() && forall h: nat | h < TOTAL :: Nth(s.next, h) !in s.free
    ensures s.free == {}
  {
    forall i: nat | i < TOTAL ensures i !in s.free {
      assert Nth(s.next, Ahead(s.next, i)) == i;
    }
  }

  lemma WrapSmall(n: nat)
    requires n < TOTAL
    ensures n % TOTAL == n
  {
  }

  lemma BlockGrows(s: set<nat>, i: nat, n: nat)
    ensures s - Block(i, n) - {i + n} == s - Block(i, n + 1)
    ensures s + Block(i, n) + {i + n} == s + Block(i, n + 1)
  {
  }

  lemma AllocNone(s: Pool)
    requires s.next < TOTAL && s.free == {}
    ensures AllocStep(s, s, None)
  {
  }

  lemma AllocFound(s: Pool, s': Pool, off: nat)
    requires s.next < TOTAL && off < TOTAL && Nth(s.next, off) in s.free
    requires forall h: nat | h < off :: Nth(s.next, h) !in s.free
    requires var i := Nth(s.next, off); s' == Pool(s.free - {i}, s.owned + {i}, (i + 1) % TOTAL)
    ensures AllocStep(s, s', Some(Nth(s.next, off) * FRAME_SIZE))
  {
    assert Ahead(s.next, Nth(s.next, off)) == off;
  }

  lemma RunFound(s: Pool, s': Pool, begin: nat, end: nat, n: nat, i: nat)
    requires RunAt(s.free, begin, end, n, i)
    requires forall j: nat | j < i :: !RunAt(s.free, begin, end, n, j)
    requires s' == Pool(s.free - Block(i, n), s.owned + Block(i, n), (i + n) % TOTAL)
    ensures ScanStep(s, s', begin, end, n, Some(i * FRAME_SIZE))
  {
  }

  /** [begin, idx) holds no run of `n`, and its longest free tail is `run`. */
  ghost predicate Scanned(free: set<nat>, begin: nat, idx: nat, n: nat, run: nat) {
    && begin <= idx && run < n && begin + run <= idx
    && Block(idx - run, run) <= free
    && (begin + run < idx ==> idx - run - 1 !in free)
    && NoRun(free, begin, idx, n)
  }

  lemma ScannedStep(free: set<nat>, begin: nat, idx: nat, n: nat, run: nat)
    requires Scanned(free, begin, idx, n, run)
    ensures idx !in free ==> Scanned(free, begin, idx + 1, n, 0)
    ensures idx in free && run + 1 < n ==> Scanned(free, begin, idx + 1, n, run + 1)
    ensures idx in free && run + 1 == n ==>
              && begin + run <= idx && RunAt(free, begin, idx + 1, n, idx - run)
              && forall j: nat, end: nat | j < idx - run :: !RunAt(free, begin, end, n, j)
  {
    forall j: nat, end: nat | begin <= j && j + n <= end && j + n <= idx
      ensures !RunAt(free, begin, end, n, j)
    {
      assert !RunAt(free, begin, idx, n, j);
    }
    forall j: nat, end: nat | begin <= j < idx - run && idx < j + n
      ensures !RunAt(free, begin, end, n, j)
    {
      var gap: nat := idx - run - 1;
      assert gap in Block(j, n);
    }
    if idx !in free { GapStopsRuns(free, begin, idx, n); }
  }

  lemma GapStopsRuns(free: set<nat>, begin: nat, idx: nat, n: nat)
    requires n > 0 && idx !in free && NoRun(free, begin, idx, n)
    ensures NoRun(free, begin, idx + 1, n)
  {
    var end := idx + 1;
    forall j: nat ensures !RunAt(free, begin, end, n, j) {
      assert !RunAt(free, begin, idx, n, j);
      assert j + n == end ==> idx in Block(j, n);
    }
  }

  lemma SizeWithout(free: set<nat>, first: nat, n: nat)
    requires Block(first, n) <= free
    ensures |free - Block(first, n)| == |free| - n
    decreases n
  {
    if n > 0 {
      assert Block(first, n) == Block(first, n - 1) + {first + n - 1};
      SizeWithout(free, first, n - 1);
      assert free - Block(first, n) == free - Block(first, n - 1) - {first + n - 1};
    }
  }

  lemma FirstPart(s: Pool, s': Pool, n: nat, r: Option<nat>)
    requires 0 < n <= TOTAL && r.Some? && ScanStep(s, s', s.next, TOTAL, n, r)
    ensures ContiguousStep(s, s', n, r)
  {
    assert !NoRun(s.free, s.next, TOTAL, n);
  }

  lemma SecondPart(s: Pool, s': Pool, n: nat, r: Option<nat>)
    requires 0 < n <= TOTAL && NoRun(s.free, s.next, TOTAL, n)
    requires ScanStep(s, s', 0, s.next, n, r) || (s.next == 0 && r.None? && s' == s)
    ensures ContiguousStep(s, s', n, r)
  {
  }

  lemma NoRunShrinks(free: set<nat>, begin: nat, end: nat, wider: nat, n: nat)
    requires end <= wider && NoRun(free, begin, wider, n)
    ensures NoRun(free, begin, end, n)
  {
    forall i: nat ensures !RunAt(free, begin, end, n, i) {
      assert !RunAt(free, begin, wider, n, i);
    }
  }

  // ---- whole runs -----------------------------------------------------------------

  datatype Op =
    | DoAlloc(one: Option<nat>)
    | DoContiguous(n: nat, first: Option<nat>)
    | DoFree(phys: nat)
    | DoReclaim(phys: nat)

  ghost predicate Step(s: Pool, op: Op, s': Pool) {
    match op
    case DoAlloc(r) => s.next < TOTAL && AllocStep(s, s', r)
    case DoContiguous(n, r) => ContiguousStep(s, s', n, r)
    case DoFree(phys) => FreeStep(s, s', phys)
    case DoReclaim(phys) => ReclaimStep(s, s', phys)
  }

  /** The frames a call hands out. */
  ghost function Handed(op: Op): (b: set<nat>) {
    match op
    case DoAlloc(Some(a)) => {a / FRAME_SIZE}
    case DoContiguous(n, Some(a)) => Block(a / FRAME_SIZE, n)
    case _ => {}
  }

  ghost predicate IsRun(ss: seq<Pool>, ops: seq<Op>) {
    |ss| == |ops| + 1 && forall k | 0 <= k < |ops| :: Step(ss[k], ops[k], ss[k + 1])
  }

  /** One call moves frames from free to owned, or one frame back, or reclaims
      one; nothing else changes. */
  lemma StepEffect(s: Pool, op: Op, s': Pool)
    requires s.Sound() && Step(s, op, s')
    ensures s'.Sound()
    ensures Handed(op) <= s.free && Handed(op) <= s'.owned
    ensures forall i: nat | s.Reserved(i) && !s'.Reserved(i) ::
            op.DoReclaim? && op.phys / FRAME_SIZE == i && i in s'.free
    ensures forall i | i in s.owned && i !in s'.owned :: op.DoFree? && op.phys / FRAME_SIZE == i && i in s'.free
    ensures forall i | i in s'.owned :: i in s.owned || i in Handed(op)
  {
  }

  /** A frame that is owned is free after it is given back, and so is a reserved
      one after it is reclaimed; no other call makes a frame free. */
  lemma StepFrees(s: Pool, op: Op, s': Pool, i: nat)
    requires s.Sound() && Step(s, op, s')
    ensures i in s'.free <==>
              || (i in s.free && i !in Handed(op))
              || (op.DoFree? && op.phys / 4096 == i && i in s.owned)
              || (op.DoReclaim? && op.phys / 4096 == i && i < TOTAL && i !in s.free && i !in s.owned)
  {
  }

  /** A single frame is the nearest free one ahead of the cursor. */
  lemma NearestFirst(s: Pool, s': Pool, a: nat, j: nat)
    requires s.Sound() && AllocStep(s, s', Some(a)) && j in s.free
    ensures Ahead(s.next, a / 4096) <= Ahead(s.next, j)
  {
    assert Nth(s.next, Ahead(s.next, j)) == j;
  }

  /** Frames are handed out in turn: one given back at once comes last. */
  lemma GivenBackComesLast(s: Pool, s1: Pool, s2: Pool, s3: Pool, a: nat, b: nat)
    requires s.Sound() && AllocStep(s, s1, Some(a)) && FreeStep(s1, s2, a) && AllocStep(s2, s3, Some(b))
    ensures a == b <==> s.free == {a / 4096}
  {
    var i, j := a / 4096, b / 4096;
    assert s2.free == s.free;
    assert s2.Sound();
    if s.free != {i} {
      var k :| k in s.free && k != i;
      NearestFirst(s2, s3, b, k);
    }
  }

  /** After a run, too, the next frame is the nearest after it. */
  lemma NearestAfterRun(s: Pool, s1: Pool, s2: Pool, n: nat, a: nat, b: nat, j: nat)
    requires s.Sound() && 0 < n && ContiguousStep(s, s1, n, Some(a)) && s1.next < TOTAL && AllocStep(s1, s2, Some(b))
    requires j in s1.free && a / 4096 + n < TOTAL
    ensures Ahead(a / 4096 + n, b / 4096) <= Ahead(a / 4096 + n, j)
  {
    StepEffect(s, DoContiguous(n, Some(a)), s1);
    assert s1.next == a / 4096 + n;
    NearestFirst(s1, s2, b, j);
  }

  /** No run leaves the three kinds of frames overlapping. */
  lemma {:induction false} RunStaysSound(ss: seq<Pool>, ops: seq<Op>, k: nat)
    requires IsRun(ss, ops) && ss[0].Sound() && k < |ss|
    ensures ss[k].Sound()
  {
    if k > 0 {
      RunStaysSound(ss, ops, k - 1);
      StepEffect(ss[k - 1], ops[k - 1], ss[k]);
    }
  }

  /** A frame reserved at the start is never handed out before it is reclaimed. */
  lemma {:induction false} ReservedNeverHanded(ss: seq<Pool>, ops: seq<Op>, i: nat, k: nat)
    requires IsRun(ss, ops) && ss[0].Sound() && ss[0].Reserved(i) && k <= |ops|
    requires forall j | 0 <= j < k :: !(ops[j].DoReclaim? && ops[j].phys / FRAME_SIZE == i)
    ensures ss[k].Reserved(i)
    ensures k < |ops| ==> i !in Handed(ops[k])
  {
    RunStaysSound(ss, ops, k);
    if k > 0 {
      ReservedNeverHanded(ss, ops, i, k - 1);
      RunStaysSound(ss, ops, k - 1);
      StepEffect(ss[k - 1], ops[k - 1], ss[k]);
    }
    if k < |ops| { StepEffect(ss[k], ops[k], ss[k + 1]); }
  }

  /** A frame handed out twice was given back in between. */
  lemma {:induction false} NoDoubleHandOut(ss: seq<Pool>, ops: seq<Op>, i: nat, j: nat, k: nat)
    requires IsRun(ss, ops) && ss[0].Sound() && j < k < |ops|
    requires i in Handed(ops[j]) && i in Handed(ops[k])
    ensures exists m :: j < m < k && ops[m].DoFree? && ops[m].phys / FRAME_SIZE == i
  {
    RunStaysSound(ss, ops, j);
    RunStaysSound(ss, ops, k);
    StepEffect(ss[j], ops[j], ss[j + 1]);
    StepEffect(ss[k], ops[k], ss[k + 1]);
    if forall m | j < m < k :: !(ops[m].DoFree? && ops[m].phys / FRAME_SIZE == i) {
      StaysOwned(ss, ops, i, j + 1, k);
    }
  }

  lemma {:induction false} StaysOwned(ss: seq<Pool>, ops: seq<Op>, i: nat, j: nat, k: nat)
    requires IsRun(ss, ops) && ss[0].Sound() && j <= k <= |ops| && i in ss[j].owned
    requires forall m | j <= m < k :: !(ops[m].DoFree? && ops[m].phys / FRAME_SIZE == i)
    ensures i in ss[k].owned
    decreases k
  {
    if j < k {
      StaysOwned(ss, ops, i, j, k - 1);
      RunStaysSound(ss, ops, k - 1);
      StepEffect(ss[k - 1], ops[k - 1], ss[k]);
    }
  }

  /** A run of frames can be had exactly when one lies wholly on one side of
      the cursor. */
  lemma ContiguousFailsIff(s: Pool, s': Pool, n: nat, r: Option<nat>)
    requires s.Sound() && 1 <= n <= TOTAL && ContiguousStep(s, s', n, r)
    ensures r.None? <==> NoRunOnASide(s, n)
  {
    if r.Some? {
      var i := r.value / FRAME_SIZE;
      assert RunAt(s.free, s.next, TOTAL, n, i) || RunAt(s.free, 0, s.next, n, i);
    }
  }
}
