/** malloc as a step on the tiled heap and the kernel break beneath it. */
module MallocSpec {
  import opened Words
  import opened HeapTiles
  import opened HeapBreak

  const ARENA_CHUNK := 65536
  const LONG_MAX := 0x7FFF_FFFF_FFFF_FFFF

  /** `(n + 15) & ~15` in 64 bits. */
  function Align16(n: nat): (r: nat) { (n + 15) % WORD / 16 * 16 }

  /** The payload a request asks for. */
  function Need(size: nat): (r: nat) { Align16(if size == 0 then 1 else size) }

  /** The index of the first listed block that is large enough. */
  function Fit(fl: seq<Tile>, need: nat): (k: nat)
    ensures FirstFit(fl, need, k)
  {
    if fl == [] || fl[0].len >= need + HDR then 0 else 1 + Fit(fl[1..], need)
  }

  /** The heap and the kernel slot that backs it. */
  datatype State = State(h: Heap, s: Slot, frames: nat)

  /** The first break call learns where the heap begins. */
  function Started(h: Heap, b: nat): (r: Heap) { if h.top == 0 then h.(top := b) else h }

  /** Ask the kernel to move the break by `inc`; whether it did, and the state. */
  ghost function Move(m: State, inc: nat): (r: (bool, State)) {
    var want := (m.h.top + inc) % WORD;
    var (got, s, frames) := Break(m.s, m.frames, want);
    if got > LONG_MAX || got != want then (false, State(m.h, s, frames))
    else (true, State(m.h.(top := want), s, frames))
  }

  /** `__fantuan_sbrk`. */
  ghost function Sbrk(m: State, inc: nat): (r: (bool, State)) {
    if m.h.top == 0 && m.s.brk > LONG_MAX then (false, m)
    else Move(m.(h := Started(m.h, m.s.brk)), inc)
  }

  /** The chunk size `bump` asks the kernel for. */
  function Chunk(need: nat): (r: nat) { Up((need + HDR + ARENA_CHUNK) % WORD) }

  /** The rest of the old chunk is abandoned and `len` bytes begin at `at`. */
  function Granted(h: Heap, at: nat, len: nat): (r: Heap) {
    h.(ts := if 0 < h.left then h.ts + {Tile(Tail, h.arena, h.left)} else h.ts,
       base := if h.arena == 0 then at else h.base, arena := at, left := len)
  }

  /** The block at the arena pointer, whose header says `need`. */
  function Carved(h: Heap, need: nat): (r: Heap) {
    var x := (need + HDR) % WORD;
    h.(ts := h.ts + {Tile(Live, h.arena, need + HDR)}, arena := (h.arena + x) % WORD, left := (h.left - x) % WORD)
  }

  /** A new chunk at the top, and the block at its start. */
  ghost function Grow(m: State, need: nat): (r: (nat, State)) {
    var (ok, n) := Move(m, Chunk(need));
    if !ok then (0, n)
    else (m.h.top + HDR, n.(h := Carved(Granted(n.h, m.h.top, Chunk(need)), need)))
  }

  ghost function Bump(m: State, need: nat): (r: (nat, State)) {
    if m.h.left >= (need + HDR) % WORD then (m.h.arena + HDR, m.(h := Carved(m.h, need)))
    else if m.h.top == 0 && m.s.brk > LONG_MAX then (0, m)
    else Grow(m.(h := Started(m.h, m.s.brk)), need)
  }

  ghost function Malloc(m: State, size: nat): (r: (nat, State)) {
    var need := Need(size);
    var k := Fit(m.h.fl, need);
    if k < |m.h.fl| then (m.h.fl[k].lo + HDR, m.(h := Reuse(m.h, k)))
    else Bump(m, need)
  }

  // ---- what every run keeps ------------------------------------------------------------

  /** Where the heap begins, or will begin. */
  function Low(h: Heap): (r: nat) { if h.arena == 0 then h.top else h.base }

  /** The heap is partitioned and lies below the break of a slot in order. */
  ghost predicate Backed(m: State) {
    && HeapTiles.Valid(m.h) && m.h.top % PAGE == 0 && m.h.top <= LONG_MAX
    && Good(m.s)
    && (if m.h.top == 0 then m.h.arena == 0 && m.s.brk == m.s.base else m.s.base <= Low(m.h) && m.h.top <= m.s.brk)
  }

  /** The chunk for `need` bytes is positive as a `long`, and no sum wraps. */
  predicate Fits(need: nat) { need + HDR + ARENA_CHUNK + 4095 <= LONG_MAX }

  lemma ChunkRoom(need: nat)
    requires Fits(need) && need % 16 == 0
    ensures need + HDR <= Chunk(need) <= LONG_MAX && Chunk(need) % PAGE == 0
  {
    UpIsNext(need + HDR + ARENA_CHUNK);
  }

  /** Before its first break call the heap is empty, so it may begin anywhere. */
  lemma StartedKeeps(m: State)
    requires Backed(m) && (m.h.top == 0 ==> m.s.brk <= LONG_MAX)
    ensures Backed(m.(h := Started(m.h, m.s.brk))) && 0 < Started(m.h, m.s.brk).top
  {
    if m.h.top == 0 { NullArena(m.h); }
  }

  lemma PageAligned(a: nat)
    requires a % PAGE == 0
    ensures a % 16 == 0
  {
  }

  /** The kernel either moves the break to `want` or refuses and leaves it. */
  lemma BreakAnswers(s: Slot, frames: nat, want: nat)
    requires Good(s) && 0 < want <= WORD - PAGE
    ensures var (got, t, f) := Break(s, frames, want);
            && Good(t) && t.base == s.base
            && (if got == want then t.brk == want else got > LONG_MAX && t.brk == s.brk)
  {
    BreakKeepsGood(s, frames, want);
    if Break(s, frames, want).0 == want { BreakSucceeds(s, frames, want); }
    GrownPages(s, frames);
  }

  lemma TopFits(top: nat, len: nat)
    requires top <= LONG_MAX && len < WORD && top % PAGE == 0 && len % PAGE == 0
    ensures (top + len) % WORD <= WORD - PAGE && (top + len) % WORD % PAGE == 0
    ensures len <= LONG_MAX ==> (top + len) % WORD == top + len
  {
  }

  /** A refused break call leaves the heap backed. A granted one moves the
      break, and the top with it. */
  lemma MoveKeeps(m: State, len: nat)
    requires Backed(m) && 0 < m.h.top && len < WORD && len % PAGE == 0
    ensures var (ok, n) := Move(m, len);
            && (!ok ==> Backed(n) && n.h == m.h)
            && (ok ==> n.h == m.h.(top := (m.h.top + len) % WORD) && n.h.top <= LONG_MAX && n.h.top % PAGE == 0
                       && Good(n.s) && n.s.base <= Low(m.h) && n.s.brk == n.h.top)
  {
    TopFits(m.h.top, len);
    var want := (m.h.top + len) % WORD;
    if 0 < want { BreakAnswers(m.s, m.frames, want); }
  }

  /** Block `p` of `len` bytes is new and live; a null `p` adds nothing. */
  ghost predicate Gains(h: Heap, g: Heap, p: nat, len: nat) {
    if p == 0 then Lives(g) == Lives(h)
    else HDR <= p && Tile(Live, p - HDR, len) !in h.ts && Lives(g) == Lives(h) + {Tile(Live, p - HDR, len)}
  }

  lemma CarvedIs(h: Heap, need: nat)
    requires need + HDR <= h.left && h.arena + h.left < WORD
    ensures Carved(h, need) == Carve(h, need + HDR)
  {
  }

  /** The chunk in use has room. */
  lemma RoomKeeps(m: State, need: nat)
    requires Backed(m) && need % 16 == 0 && need + HDR <= m.h.left
    ensures Bump(m, need) == (m.h.arena + HDR, m.(h := Carve(m.h, need + HDR)))
    ensures Backed(Bump(m, need).1) && Gains(m.h, Bump(m, need).1.h, Bump(m, need).0, need + HDR)
  {
    hide Backed, Bump, HeapTiles.Valid, Lives;
    BumpHasRoom(m, need);
    CarveBacked(m, need + HDR);
  }

  lemma BumpHasRoom(m: State, need: nat)
    requires Backed(m) && need + HDR <= m.h.left
    ensures Bump(m, need) == (m.h.arena + HDR, m.(h := Carve(m.h, need + HDR)))
  {
    hide Good, Grow, Listed, Coalesced;
    LeftFits(m.h);
    CarvedIs(m.h, need);
  }

  lemma LeftFits(h: Heap)
    requires Partition(h) && 0 < h.left && h.top <= LONG_MAX
    ensures h.arena + h.left == h.top
  {
  }

  lemma CarveBacked(m: State, len: nat)
    requires Backed(m) && HDR <= len <= m.h.left && len % 16 == 0
    ensures Backed(m.(h := Carve(m.h, len))) && Gains(m.h, Carve(m.h, len), m.h.arena + HDR, len)
  {
    hide Good, HeapTiles.Valid, Lives;
    CarveKeeps(m.h, len);
    ArenaSet(m.h);
  }

  lemma ArenaSet(h: Heap)
    requires HeapTiles.Valid(h) && 0 < h.left
    ensures 0 < h.arena
  {
  }

  /** A chunk is granted at the top. */
  lemma ChunkKeeps(h: Heap, len: nat, need: nat)
    requires HeapTiles.Valid(h) && 0 < h.top && h.top % PAGE == 0 && need + HDR <= len && h.top + len < WORD
             && need % 16 == 0
    ensures var r := Carved(Granted(h, h.top, len).(top := h.top + len), need);
            HeapTiles.Valid(r) && r.top == h.top + len && Gains(h, r, h.top + HDR, need + HDR)
  {
    PageAligned(h.top);
    var g := NewChunk(h, len);
    assert Granted(h, h.top, len).(top := h.top + len) == g;
    NewChunkKeeps(h, len);
    CarvedIs(g, need);
    CarveKeeps(g, need + HDR);
  }

  lemma GrowKeeps(m: State, need: nat)
    requires Backed(m) && 0 < m.h.top && Fits(need) && need % 16 == 0
    ensures Backed(Grow(m, need).1) && Gains(m.h, Grow(m, need).1.h, Grow(m, need).0, need + HDR)
  {
    hide Move, Lives, HeapTiles.Valid, Good, Chunk;
    ChunkRoom(need);
    MoveKeeps(m, Chunk(need));
    var len, n := Chunk(need), Move(m, Chunk(need)).1;
    if Move(m, len).0 {
      TopFits(m.h.top, len);
      ChunkKeeps(m.h, len, need);
      var g := Granted(m.h, m.h.top, len).(top := m.h.top + len);
      assert Grow(m, need) == (m.h.top + HDR, n.(h := Carved(g, need)));
    } else {
      assert Grow(m, need) == (0, n);
    }
  }

  lemma BumpIs(m: State, need: nat)
    requires m.h.left < need + HDR < WORD
    ensures Bump(m, need) ==
              if m.h.top == 0 && m.s.brk > LONG_MAX then (0, m) else Grow(m.(h := Started(m.h, m.s.brk)), need)
  {
  }

  /** `bump` adds one live block of the size asked for, or nothing. */
  lemma BumpKeeps(m: State, need: nat)
    requires Backed(m) && Fits(need) && need % 16 == 0
    ensures Backed(Bump(m, need).1) && Gains(m.h, Bump(m, need).1.h, Bump(m, need).0, need + HDR)
  {
    if m.h.left >= need + HDR {
      RoomKeeps(m, need);
    } else {
      BumpIs(m, need);
      if m.h.top > 0 || m.s.brk <= LONG_MAX {
        StartedKeeps(m);
        GrowKeeps(m.(h := Started(m.h, m.s.brk)), need);
        assert Lives(Started(m.h, m.s.brk)) == Lives(m.h);
      }
    }
  }

  /** Aligning makes room for the request unless it wraps, which leaves nothing. */
  lemma NeedCovers(size: nat)
    requires size < WORD
    ensures Need(size) % 16 == 0
    ensures if size <= WORD - 16 then size <= Need(size) < size + 17 && 16 <= Need(size) else Need(size) == 0
  {
  }

  /** The length of the block a request is given, header included. */
  function Given(m: State, size: nat): (len: nat) {
    var k := Fit(m.h.fl, Need(size));
    if k < |m.h.fl| then m.h.fl[k].len else Need(size) + HDR
  }

  lemma MallocIs(m: State, size: nat)
    ensures var k := Fit(m.h.fl, Need(size));
            Malloc(m, size) ==
              if k < |m.h.fl| then (m.h.fl[k].lo + HDR, m.(h := Reuse(m.h, k))) else Bump(m, Need(size))
  {
  }

  lemma ReuseGains(m: State, k: nat)
    requires Backed(m) && k < |m.h.fl|
    ensures Backed(m.(h := Reuse(m.h, k))) && Gains(m.h, Reuse(m.h, k), m.h.fl[k].lo + HDR, m.h.fl[k].len)
  {
    ReuseKeeps(m.h, k);
    assert Tile(Live, m.h.fl[k].lo, m.h.fl[k].len) == m.h.fl[k].(kind := Live);
  }

  /** The block has room for the request, exactly when aligning does not wrap. */
  lemma MallocGives(m: State, size: nat)
    requires Backed(m) && size < WORD
    ensures Given(m, size) >= size + HDR <==> size <= WORD - 16
    ensures size > WORD - 16 && m.h.fl == [] ==> Given(m, size) == HDR
  {
    hide Good, Coalesced;
    NeedCovers(size);
    var k := Fit(m.h.fl, Need(size));
    if k < |m.h.fl| { ListedPositive(m.h, k); }
  }

  /** Every payload is aligned. */
  lemma LiveAligned(h: Heap, t: Tile)
    requires Partition(h) && t in Lives(h)
    ensures (t.lo + HDR) % 16 == 0
  {
    assert Placed(h, t);
  }

  /** The kernel has the frames to move the break of `s` from `top` on by `len`,
      and the answer is no error to the caller. */
  predicate Grants(s: Slot, frames: nat, top: nat, len: nat) {
    var want := (top + len) % WORD;
    s.base <= want <= LONG_MAX && (want <= s.mapped || Count(s.mapped, Up(want)) <= frames)
  }

  lemma MoveGranted(m: State, len: nat)
    requires Backed(m) && 0 < m.h.top && len < WORD && len % PAGE == 0
    ensures Move(m, len).0 <==> Grants(m.s, m.frames, m.h.top, len)
  {
  }

  /** A larger request damages the heap exactly when no listed block fits, the
      chunk has no room, and the header wraps or the kernel grants the chunk
      all the same. */
  predicate Overruns(m: State, size: nat) {
    var need := Need(size);
    && Fit(m.h.fl, need) == |m.h.fl| && m.h.left < need + HDR && !Fits(need)
    && (need + HDR == WORD || GrantsChunk(m, need))
  }

  predicate GrantsChunk(m: State, need: nat) {
    && (m.h.top == 0 ==> m.s.brk <= LONG_MAX)
    && Grants(m.s, m.frames, Started(m.h, m.s.brk).top, Chunk(need))
  }

  lemma MallocExact(m: State, size: nat)
    requires Backed(m) && size < WORD
    ensures Backed(Malloc(m, size).1) <==> !Overruns(m, size)
  {
    NeedCovers(size);
    MallocIs(m, size);
    var need, k := Need(size), Fit(m.h.fl, Need(size));
    if k < |m.h.fl| {
      ReuseGains(m, k);
    } else if Fits(need) {
      BumpKeeps(m, need);
    } else if m.h.left >= need + HDR {
      RoomKeeps(m, need);
    } else {
      BumpOverruns(m, need);
    }
  }

  /** A request that does not overrun yields null or a new live block. */
  lemma MallocGains(m: State, size: nat)
    requires Backed(m) && size < WORD && !Overruns(m, size)
    ensures Gains(m.h, Malloc(m, size).1.h, Malloc(m, size).0, Given(m, size))
  {
    MallocIs(m, size);
    NeedCovers(size);
    var k := Fit(m.h.fl, Need(size));
    if k < |m.h.fl| {
      ReuseGains(m, k);
      assert Given(m, size) == m.h.fl[k].len;
    } else {
      BumpGains(m, Need(size));
      assert Given(m, size) == Need(size) + HDR;
    }
  }

  lemma BumpGains(m: State, need: nat)
    requires Backed(m) && need % 16 == 0 && need < WORD
    requires Fits(need) || need + HDR <= m.h.left || !(need + HDR == WORD || GrantsChunk(m, need))
    ensures Gains(m.h, Bump(m, need).1.h, Bump(m, need).0, need + HDR)
  {
    if Fits(need) {
      BumpKeeps(m, need);
    } else if need + HDR <= m.h.left {
      RoomKeeps(m, need);
    } else {
      BumpOverruns(m, need);
      RefusedLives(m, need);
    }
  }

  /** What a request that does not overrun comes to, if no listed block fits. */
  lemma BumpDecides(m: State, size: nat)
    requires Backed(m) && size < WORD && !Overruns(m, size) && Fit(m.h.fl, Need(size)) == |m.h.fl|
    ensures Fits(Need(size)) || Need(size) + HDR <= m.h.left || Bump(m, Need(size)).0 == 0
  {
    hide Backed, Bump;
    NeedCovers(size);
    if !Fits(Need(size)) && m.h.left < Need(size) + HDR { BumpOverruns(m, Need(size)); }
  }

  lemma RefusedLives(m: State, need: nat)
    requires Bump(m, need).0 == 0
    ensures Lives(Bump(m, need).1.h) == Lives(m.h)
  {
  }

  /** Such a request: its header wraps, and a new heap grants it at once. */
  lemma HugeRequestOverruns(base: nat, frames: nat)
    requires base <= WORD - PAGE
    ensures Overruns(Initial(HeapBreak.Fresh(base), frames), WORD - 16)
  {
    assert Need(WORD - 16) == WORD - 16;
  }

  lemma BumpOverruns(m: State, need: nat)
    requires Backed(m) && need % 16 == 0 && need < WORD && !Fits(need) && m.h.left < need + HDR
    ensures Bump(m, need).0 == 0 <==> !(need + HDR == WORD || GrantsChunk(m, need))
    ensures Backed(Bump(m, need).1) <==> Bump(m, need).0 == 0
  {
    hide Grants, Backed, Grow;
    if need + HDR == WORD {
      BumpWraps(m, need);
    } else {
      NotWrapped(need);
      BumpIs(m, need);
      if m.h.top > 0 || m.s.brk <= LONG_MAX {
        StartedKeeps(m);
        GrowOverruns(m.(h := Started(m.h, m.s.brk)), need);
      }
    }
  }

  lemma BumpWraps(m: State, need: nat)
    requires Backed(m) && need + HDR == WORD
    ensures Bump(m, need).0 != 0 && !Backed(Bump(m, need).1)
  {
    WrappedHeader(m.h, need);
    assert Bump(m, need) == (m.h.arena + HDR, m.(h := Carved(m.h, need)));
  }

  lemma NotWrapped(need: nat)
    requires need % 16 == 0 && need < WORD && need + HDR != WORD
    ensures need + HDR < WORD
  {
  }

  /** A header that wraps takes no bytes from the arena. */
  lemma WrappedHeader(h: Heap, need: nat)
    requires need + HDR == WORD && h.arena < WORD
    ensures !Partition(Carved(h, need))
  {
    var t := Tile(Live, h.arena, need + HDR);
    assert t in Carved(h, need).ts && !Placed(Carved(h, need), t);
  }

  /** A chunk that does not fit a `long` is no longer as large as it says. */
  lemma GrowOverruns(m: State, need: nat)
    requires Backed(m) && 0 < m.h.top && need % 16 == 0 && need + HDR < WORD && !Fits(need)
    ensures Grow(m, need).0 == 0 <==> !Grants(m.s, m.frames, m.h.top, Chunk(need))
    ensures Backed(Grow(m, need).1) <==> Grow(m, need).0 == 0
  {
    var len := Chunk(need);
    ChunkWraps(need);
    MoveKeeps(m, len);
    MoveGranted(m, len);
    var n := Move(m, len).1;
    if Move(m, len).0 {
      var r := Carved(Granted(n.h, m.h.top, len), need);
      assert Grow(m, need) == (m.h.top + HDR, n.(h := r));
      Overlong(Granted(n.h, m.h.top, len), need);
    } else {
      assert Grow(m, need) == (0, n);
    }
  }

  /** Either the sums no longer agree or the block ends above the arena. */
  lemma Overlong(g: Heap, need: nat)
    requires g.arena <= LONG_MAX && g.left < WORD && need + HDR < WORD
    requires g.left > LONG_MAX || g.left < need + HDR
    requires g.top == (g.arena + g.left) % WORD <= LONG_MAX
    ensures !Partition(Carved(g, need))
  {
    hide Partition;
    var x, r, t := need + HDR, Carved(g, need), Tile(Live, g.arena, need + HDR);
    assert x % WORD == x;
    if g.arena + x < WORD {
      assert r.arena == g.arena + x && r.left == (g.left - x) % WORD;
      Mismatch(g.arena, g.left, x);
      NoSum(r);
    } else {
      assert r.arena == g.arena + x - WORD;
      TilePast(r, t);
    }
  }

  lemma NoSum(h: Heap)
    requires h.arena != 0 && h.arena + h.left != h.top
    ensures !Partition(h)
  {
  }

  lemma TilePast(h: Heap, t: Tile)
    requires t in h.ts && h.arena < t.Hi()
    ensures !Partition(h)
  {
    assert !Placed(h, t);
  }

  lemma Mismatch(at: nat, len: nat, x: nat)
    requires at <= LONG_MAX && len < WORD && at + x < WORD && (len > LONG_MAX || len < x)
             && (at + len) % WORD <= LONG_MAX
    ensures at + x + (len - x) % WORD != (at + len) % WORD
  {
    assert (len - x) % WORD == if len < x then len - x + WORD else len - x;
  }

  lemma ChunkWraps(need: nat)
    requires need + HDR < WORD && !Fits(need)
    ensures Chunk(need) % PAGE == 0 && Chunk(need) < WORD
    ensures Chunk(need) > LONG_MAX || Chunk(need) < need + HDR
  {
  }

  // ---- when there is no block ---------------------------------------------------------------

  /** No listed block is large enough, the chunk has no room, and the kernel does
      not grant another. */
  ghost predicate Exhausted(m: State, size: nat) {
    && (forall k | 0 <= k < |m.h.fl| :: m.h.fl[k].len < Need(size) + HDR)
    && m.h.left < Need(size) + HDR && Need(size) + HDR != WORD && !GrantsChunk(m, Need(size))
  }

  /** That is exactly when the answer is null. */
  lemma MallocNull(m: State, size: nat)
    requires Backed(m) && size < WORD
    ensures Malloc(m, size).0 == 0 <==> Exhausted(m, size)
  {
    hide Backed, Bump, GrantsChunk;
    NeedCovers(size);
    MallocIs(m, size);
    if Fit(m.h.fl, Need(size)) == |m.h.fl| { BumpNull(m, Need(size)); }
  }

  lemma BumpNull(m: State, need: nat)
    requires Backed(m) && need % 16 == 0 && need < WORD
    ensures Bump(m, need).0 == 0 <==> m.h.left < need + HDR && need + HDR != WORD && !GrantsChunk(m, need)
  {
    hide Grants, Backed, Grow;
    if need + HDR <= m.h.left {
      RoomKeeps(m, need);
    } else if !Fits(need) {
      BumpOverruns(m, need);
    } else {
      BumpIs(m, need);
      if m.h.top > 0 || m.s.brk <= LONG_MAX {
        StartedKeeps(m);
        GrowNull(m.(h := Started(m.h, m.s.brk)), need);
      }
    }
  }

  lemma GrowNull(m: State, need: nat)
    requires Backed(m) && 0 < m.h.top && need % 16 == 0 && Fits(need)
    ensures Grow(m, need).0 == 0 <==> !Grants(m.s, m.frames, m.h.top, Chunk(need))
  {
    hide Backed, Chunk, Grants, Move;
    ChunkRoom(need);
    MoveGranted(m, Chunk(need));
  }

  /** The first request of a process: 17 pages for a chunk of 64 KiB and a block,
      or null if there are not so many frames. */
  lemma FirstMalloc(frames: nat)
    ensures var (p, m) := Malloc(Initial(HeapBreak.Fresh(0), frames), 1);
            if frames < 17 then p == 0
            else p == 0x50_0010 && m.s.brk == 0x51_1000 && m.frames == frames - 17 && m.h.left == 0x1_0FE0
  {
    hide Grown;
    var m := Initial(HeapBreak.Fresh(0), frames);
    assert Need(1) == 16 && Chunk(16) == 0x1_1000;
    assert Count(0x50_0000, Up(0x51_1000)) == 17;
    BumpIs(m, 16);
    var n := m.(h := Started(m.h, m.s.brk));
    assert Malloc(m, 1) == Grow(n, 16);
    GrownPages(n.s, 17);
  }

  // ---- free, realloc and whole runs ------------------------------------------------------

  /** How many listed blocks lie below address `a`. */
  function Below(fl: seq<Tile>, a: nat): (k: nat)
    ensures k <= |fl| && (forall i | 0 <= i < k :: fl[i].lo < a) && (k < |fl| ==> a <= fl[k].lo)
  {
    if fl == [] || a <= fl[0].lo then 0 else 1 + Below(fl[1..], a)
  }

  ghost function Freed(m: State, b: Tile): (r: State) { m.(h := HeapTiles.Release(m.h, b, Below(m.h.fl, b.lo))) }

  /** A growing block is first copied and then freed. */
  ghost function Realloc(m: State, b: Tile, size: nat): (r: (nat, State)) {
    if size == 0 then (0, Freed(m, b))
    else if b.len >= size + HDR then (b.lo + HDR, m)
    else
      var (q, n) := Malloc(m, size);
      if q == 0 then (0, n) else (q, Freed(n, b))
  }

  /** What resizing comes to: nothing is left of a block resized to nothing, a
      block with room stays as it is, and one without gives way to a new block
      with room unless there is none. */
  lemma ReallocExactly(m: State, b: Tile, size: nat)
    requires Backed(m) && b in Lives(m.h) && size < WORD && (Grows(b, size) ==> !Overruns(m, size))
    ensures var (q, n) := Realloc(m, b, size);
            && (size == 0 ==> q == 0 && Lives(n.h) == Lives(m.h) - {b})
            && (0 < size <= b.len - HDR ==> q == b.lo + HDR && n == m)
            && (0 < size && b.len - HDR < size ==>
                  && (q == 0 <==> Exhausted(m, size))
                  && Swaps(m.h, n.h, b, q, Given(m, size)))
  {
    hide Backed, Malloc, Exhausted, Overruns, Given;
    if size == 0 {
      FreedKeeps(m, b);
    } else if b.len - HDR < size {
      MallocNull(m, size);
      MallocGains(m, size);
      ReallocGrows(m, b, size);
      if Malloc(m, size).0 != 0 { assert Realloc(m, b, size).0 == Malloc(m, size).0; }
    }
  }

  lemma FreedKeeps(m: State, b: Tile)
    requires Backed(m) && b in Lives(m.h)
    ensures Backed(Freed(m, b)) && Lives(Freed(m, b).h) == Lives(m.h) - {b}
  {
    var k := Below(m.h.fl, b.lo);
    forall i | k <= i < |m.h.fl| ensures b.lo <= m.h.fl[i].lo {
      if k < i { assert m.h.fl[k].Hi() <= m.h.fl[i].lo; }
    }
    ReleaseKeeps(m.h, b, k);
    ReleaseFrame(m.h, b, k);
  }

  lemma ReleaseFrame(h: Heap, b: Tile, k: nat)
    requires k <= |h.fl|
    ensures var r := HeapTiles.Release(h, b, k);
            r.base == h.base && r.arena == h.arena && r.left == h.left && r.top == h.top
  {
  }

  /** Growing a block trades it for a new one with room; a refusal keeps it. */
  lemma ReallocGrows(m: State, b: Tile, size: nat)
    requires Backed(m) && b in Lives(m.h) && size < WORD && Grows(b, size) && !Overruns(m, size)
    ensures Backed(Realloc(m, b, size).1)
    ensures Swaps(m.h, Realloc(m, b, size).1.h, b, Realloc(m, b, size).0, Given(m, size))
  {
    hide Backed, Overruns, Given, Malloc;
    MallocExact(m, size);
    MallocGains(m, size);
    var (q, n) := Malloc(m, size);
    if q == 0 {
      assert Realloc(m, b, size) == (0, n);
    } else {
      assert Realloc(m, b, size) == (q, Freed(n, b));
      FreedKeeps(n, b);
      GainsThenFrees(m.h, n.h, Freed(n, b).h, b, q, Given(m, size));
    }
  }

  lemma GainsThenFrees(h: Heap, n: Heap, g: Heap, b: Tile, p: nat, len: nat)
    requires b in Lives(h) && 0 < p && Gains(h, n, p, len) && Lives(g) == Lives(n) - {b}
    ensures Swaps(h, g, b, p, len)
  {
    assert Tile(Live, p - HDR, len) != b;
  }

  /** Live block `b` gave way to block `p` of `len` bytes, unless `p` is null. */
  ghost predicate Swaps(h: Heap, g: Heap, b: Tile, p: nat, len: nat) {
    if p == 0 then Lives(g) == Lives(h) else HDR <= p && Lives(g) == Lives(h) - {b} + {Tile(Live, p - HDR, len)}
  }

  lemma ReallocKeeps(m: State, b: Tile, size: nat)
    requires Backed(m) && b in Lives(m.h) && size < WORD && (Grows(b, size) ==> !Overruns(m, size))
    ensures Backed(Realloc(m, b, size).1)
  {
    hide Backed, Overruns, Malloc, Freed;
    if size == 0 {
      FreedKeeps(m, b);
      assert Realloc(m, b, size) == (0, Freed(m, b));
    } else if b.len >= size + HDR {
      assert Realloc(m, b, size) == (b.lo + HDR, m);
    } else {
      ReallocGrows(m, b, size);
    }
  }

  datatype Op = Take(size: nat) | Give(b: Tile) | Resize(b: Tile, size: nat)

  /** What a caller must respect: give back only what is held, and ask for
      nothing that overruns. */
  ghost predicate Allowed(m: State, op: Op) {
    match op
    case Take(size) => size < WORD && !Overruns(m, size)
    case Give(b) => b in Lives(m.h)
    case Resize(b, size) => b in Lives(m.h) && size < WORD && (Grows(b, size) ==> !Overruns(m, size))
  }

  /** Resizing the block takes a new one. */
  predicate Grows(b: Tile, size: nat) { size > 0 && b.len < size + HDR }

  ghost function Step(m: State, op: Op): (r: State) {
    match op
    case Take(size) => Malloc(m, size).1
    case Give(b) => Freed(m, b)
    case Resize(b, size) => Realloc(m, b, size).1
  }

  ghost function Run(m: State, ops: seq<Op>): (r: State)
    decreases |ops|
  {
    if ops == [] then m else Run(Step(m, ops[0]), ops[1..])
  }

  ghost predicate AllAllowed(m: State, ops: seq<Op>)
    decreases |ops|
  {
    ops == [] || (Allowed(m, ops[0]) && AllAllowed(Step(m, ops[0]), ops[1..]))
  }

  lemma StepKeeps(m: State, op: Op)
    requires Backed(m) && Allowed(m, op)
    ensures Backed(Step(m, op))
  {
    match op
    case Take(size) =>
      MallocExact(m, size);
      assert Step(m, op) == Malloc(m, size).1;
    case Give(b) =>
      FreedKeeps(m, b);
      assert Step(m, op) == Freed(m, b);
    case Resize(b, size) =>
      ReallocKeeps(m, b, size);
      assert Step(m, op) == Realloc(m, b, size).1;
  }

  /** Over every run the heap stays partitioned into live blocks, free blocks,
      tails and the arena, with a sorted, coalesced list, below the break. */
  lemma {:induction false} RunKeeps(m: State, ops: seq<Op>)
    requires Backed(m) && AllAllowed(m, ops)
    ensures Backed(Run(m, ops))
    decreases |ops|
  {
    if ops == [] {
      assert Run(m, ops) == m;
    } else {
      StepKeeps(m, ops[0]);
      RunKeeps(Step(m, ops[0]), ops[1..]);
      assert Run(m, ops) == Run(Step(m, ops[0]), ops[1..]);
    }
  }

  /** Across the system call: in every state of a run each byte of a live block
      lies in that block alone, and in a page the kernel mapped exactly once. */
  lemma LiveBytesMapped(m: State, t: Tile, a: nat)
    requires Backed(m) && t in Lives(m.h) && t.Has(a)
    ensures exists k :: 0 <= k < |m.s.pages| && m.s.pages[k] == a / PAGE
    ensures forall i, k | 0 <= i < k < |m.s.pages| :: m.s.pages[i] != m.s.pages[k]
    ensures forall u | u in m.h.ts && u != t :: !u.Has(a)
  {
    assert Placed(m.h, t);
    HeapBytesMapped(m.s, a);
  }

  /** From the start of a process, after any run: every byte of every live block
      is in a mapped page and in no other block, and every payload is aligned. */
  lemma HeapOfProcess(base: nat, frames: nat, ops: seq<Op>, t: Tile, a: nat)
    requires base <= WORD - PAGE && AllAllowed(Initial(HeapBreak.Fresh(base), frames), ops)
    requires t in Lives(Run(Initial(HeapBreak.Fresh(base), frames), ops).h) && t.Has(a)
    ensures var m := Run(Initial(HeapBreak.Fresh(base), frames), ops);
            && (t.lo + HDR) % 16 == 0 && (forall u | u in m.h.ts && u != t :: !u.Has(a))
            && exists k :: 0 <= k < |m.s.pages| && m.s.pages[k] == a / PAGE
  {
    hide Run, AllAllowed;
    InitialBacked(base, frames);
    RunKeeps(Initial(HeapBreak.Fresh(base), frames), ops);
    var m := Run(Initial(HeapBreak.Fresh(base), frames), ops);
    LiveBytesMapped(m, t, a);
    LiveAligned(m.h, t);
  }

  /** The heap of a new process. */
  function Initial(s: Slot, frames: nat): (m: State) { State(Heap(0, {}, [], 0, 0, 0), s, frames) }

  lemma InitialBacked(base: nat, frames: nat)
    requires base <= WORD - PAGE
    ensures Backed(Initial(HeapBreak.Fresh(base), frames))
  {
    FreshGood(base);
  }
}
