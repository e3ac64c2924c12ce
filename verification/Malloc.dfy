/** The malloc family over linked headers in memory and the kernel break. */
module Malloc {
  import opened Words
  import opened HeapBreak
  import opened HeapLinks
  import opened HeapTiles
  import Spec = MallocSpec

  /** `bump` leaves the list alone, and a refusal leaves the tiles alone. */
  lemma BumpFrame(m: Spec.State, need: nat)
    requires Spec.Backed(m)
    ensures var (p, n) := Spec.Bump(m, need);
            n.h.fl == m.h.fl && (p == 0 ==> n.h.ts == m.h.ts) && (p != 0 ==> p >= HDR && m.h.arena <= p - HDR)
  {
  }

  /** Whether the chunk in use, or a new one, has room for the block. */
  predicate Serves(m: Spec.State, need: nat) { need + HDR <= m.h.left || Spec.Fits(need) }

  lemma BumpServes(m: Spec.State, need: nat)
    requires Spec.Backed(m) && need % 16 == 0 && Serves(m, need)
    ensures Spec.Backed(Spec.Bump(m, need).1)
    ensures Spec.Gains(m.h, Spec.Bump(m, need).1.h, Spec.Bump(m, need).0, need + HDR)
  {
    if need + HDR <= m.h.left { Spec.RoomKeeps(m, need); } else { Spec.BumpKeeps(m, need); }
  }

  /** The heap `g` has one more block than `h`, whose header is written. */
  lemma LaidMore(mem: Cells, head: nat, h: Heap, g: Heap, p: nat, need: nat)
    requires Partition(h) && Laid(mem, head, h) && HDR <= p && Spec.Gains(h, g, p, need + HDR) && g.fl == h.fl
    requires Intact(mem, Headed(mem, p - HDR, need), Lives(h)) && Linked(Headed(mem, p - HDR, need), head, h.fl, 0)
    ensures Laid(Headed(mem, p - HDR, need), head, g)
  {
    LivesPositive(h);
    SizedMore(mem, Headed(mem, p - HDR, need), Lives(h), Tile(Live, p - HDR, need + HDR));
  }

  /** What `bump` leaves in memory. */
  function BumpMem(mem: Cells, p: nat, need: nat): (r: Cells) { if p < HDR then mem else Headed(mem, p - HDR, need) }

  lemma RefusedLaid(m: Spec.State, mem: Cells, head: nat, need: nat)
    requires Spec.Backed(m) && Laid(mem, head, m.h) && Spec.Bump(m, need).0 == 0
    ensures BumpMem(mem, Spec.Bump(m, need).0, need) == mem && Laid(mem, head, Spec.Bump(m, need).1.h)
  {
    BumpFrame(m, need);
    LaidSame(mem, head, m.h, Spec.Bump(m, need).1.h);
  }

  lemma BumpIntact(m: Spec.State, mem: Cells, head: nat, need: nat)
    requires Spec.Backed(m) && Linked(mem, head, m.h.fl, 0) && Spec.Bump(m, need).0 != 0
    ensures Intact(mem, BumpMem(mem, Spec.Bump(m, need).0, need), Lives(m.h))
    ensures Linked(BumpMem(mem, Spec.Bump(m, need).0, need), head, m.h.fl, 0)
  {
    BumpFrame(m, need);
    HeaderIntact(m.h, mem, head, Spec.Bump(m, need).0, need);
  }

  lemma HeaderIntact(h: Heap, mem: Cells, head: nat, p: nat, need: nat)
    requires Partition(h) && Listed(h) && Linked(mem, head, h.fl, 0) && HDR <= p && h.arena <= p - HDR
    ensures Intact(mem, BumpMem(mem, p, need), Lives(h)) && Linked(BumpMem(mem, p, need), head, h.fl, 0)
  {
    HeadedIntact(mem, head, h, p - HDR, need);
    assert BumpMem(mem, p, need) == Headed(mem, p - HDR, need);
  }

  lemma ServedLaid(m: Spec.State, mem: Cells, head: nat, need: nat)
    requires Spec.Backed(m) && Laid(mem, head, m.h) && need % 16 == 0 && Serves(m, need) && Spec.Bump(m, need).0 != 0
    ensures Laid(BumpMem(mem, Spec.Bump(m, need).0, need), head, Spec.Bump(m, need).1.h)
  {
    BumpFrame(m, need);
    var p := Spec.Bump(m, need).0;
    assert BumpMem(mem, p, need) == Headed(mem, p - HDR, need);
    BumpIntact(m, mem, head, need);
    BumpServes(m, need);
    LaidMore(mem, head, m.h, Spec.Bump(m, need).1.h, p, need);
  }

  lemma LaidSame(mem: Cells, head: nat, h: Heap, g: Heap)
    requires Laid(mem, head, h) && g.fl == h.fl && g.ts == h.ts
    ensures Laid(mem, head, g)
  {
    assert Lives(g) == Lives(h);
  }

  /** `bump` in terms of the break call it makes. */
  lemma BumpViaSbrk(m: Spec.State, need: nat)
    requires m.h.left < (need + HDR) % WORD
    ensures var len := Spec.Chunk(need);
            var (ok, n) := Spec.Sbrk(m, len);
            var at := Spec.Started(m.h, m.s.brk).top;
            Spec.Bump(m, need) ==
              if ok then (at + HDR, n.(h := Spec.Carved(Spec.Granted(n.h, at, len), need))) else (0, n)
  {
  }

  /** No block lies at the null address, so a null link ends the list. */
  ghost predicate NonNull(fl: seq<Tile>) { forall k | 0 <= k < |fl| :: 0 < fl[k].lo }

  lemma ListNonNull(h: Heap)
    requires Partition(h) && Listed(h)
    ensures NonNull(h.fl)
  {
    forall k: nat | k < |h.fl| ensures 0 < h.fl[k].lo { ListedPositive(h, k); }
  }

  lemma FitUnique(fl: seq<Tile>, need: nat, k: nat)
    requires FirstFit(fl, need, k)
    ensures k == Spec.Fit(fl, need)
  {
  }

  // ---- malloc on memory ---------------------------------------------------------------

  function MallocHead(fl: seq<Tile>, head: nat, need: nat): (r: nat) {
    if Spec.Fit(fl, need) == 0 && 0 < |fl| then Link(fl, 1, 0) else head
  }

  ghost function MallocMem(m: Spec.State, mem: Cells, need: nat): (r: Cells) {
    var k := Spec.Fit(m.h.fl, need);
    if k < |m.h.fl| then Unlinked(mem, m.h.fl, k) else BumpMem(mem, Spec.Bump(m, need).0, need)
  }

  /** No byte of a live block changes, whatever the request. */
  lemma MallocIntact(m: Spec.State, mem: Cells, head: nat, need: nat)
    requires Spec.Backed(m) && Laid(mem, head, m.h)
    ensures Intact(mem, MallocMem(m, mem, need), Lives(m.h))
  {
    var k := Spec.Fit(m.h.fl, need);
    if k < |m.h.fl| {
      UnlinkedIntact(mem, m.h, k);
    } else if Spec.Bump(m, need).0 == 0 {
      RefusedLaid(m, mem, head, need);
    } else {
      BumpIntact(m, mem, head, need);
    }
  }

  /** The layout after a request that does not overrun. */
  lemma MallocLaid(m: Spec.State, mem: Cells, head: nat, size: nat)
    requires Spec.Backed(m) && Laid(mem, head, m.h) && size < WORD && !Spec.Overruns(m, size)
    ensures Laid(MallocMem(m, mem, Spec.Need(size)), MallocHead(m.h.fl, head, Spec.Need(size)),
                 Spec.Malloc(m, size).1.h)
  {
    hide Spec.Overruns, Spec.Bump, Spec.Malloc, Laid;
    var need := Spec.Need(size);
    var k := Spec.Fit(m.h.fl, need);
    Spec.NeedCovers(size);
    Spec.MallocIs(m, size);
    if k < |m.h.fl| {
      ReuseLaid(mem, head, m.h, k);
    } else {
      Spec.BumpDecides(m, size);
      if Spec.Bump(m, need).0 == 0 { RefusedLaid(m, mem, head, need); } else { ServedLaid(m, mem, head, need); }
    }
  }

  // ---- free on memory -----------------------------------------------------------------

  /** The test `free` makes: does entry `i` end where the next one begins? */
  lemma TouchTest(mem: Cells, head: nat, h: Heap, i: nat)
    requires Partition(h) && Listed(h) && Linked(mem, head, h.fl, 0) && i < |h.fl|
    ensures var next := Load(mem, h.fl[i].lo + NEXT);
            && next == Link(h.fl, i + 1, 0)
            && (next != 0 && h.fl[i].lo + HDR + Load(mem, h.fl[i].lo) == next <==> Touches(h.fl, i))
  {
    assert Entry(mem, h.fl, i, 0);
    ListNonNull(h);
  }

  /** What a merge keeps. */
  ghost predicate Sound(mem: Cells, head: nat, h: Heap) { Partition(h) && Listed(h) && Laid(mem, head, h) }

  lemma FuseSound(mem: Cells, head: nat, h: Heap, i: nat)
    requires Sound(mem, head, h) && Touches(h.fl, i)
    ensures HDR <= h.fl[i].len && Sound(Absorbed(mem, h.fl, i), head, Fuse(h, i))
    ensures Lives(Fuse(h, i)) == Lives(h) && Intact(mem, Absorbed(mem, h.fl, i), Lives(h))
  {
    ListedPositive(h, i);
    FuseKeeps(h, i);
    FuseLaid(mem, head, h, i);
    AbsorbedIntact(mem, h, i);
  }

  lemma InsertSound(mem: Cells, head: nat, h: Heap, b: Tile, k: nat)
    requires Sound(mem, head, h) && b in Lives(h) && k == Spec.Below(h.fl, b.lo)
    ensures Sound(Hooked(mem, h.fl, k, b.lo), if k == 0 then b.lo else head, Insert(h, b, k))
    ensures Lives(Insert(h, b, k)) == Lives(h) - {b} && Intact(mem, Hooked(mem, h.fl, k, b.lo), Lives(h))
  {
    BelowPosition(h.fl, b.lo);
    InsertKeeps(h, b, k);
    InsertLaid(mem, head, h, b, k);
    HookedIntact(mem, h, b, k);
  }

  lemma BelowPosition(fl: seq<Tile>, a: nat)
    requires Ordered(fl)
    ensures HeapTiles.Position(fl, a, Spec.Below(fl, a))
  {
    var k := Spec.Below(fl, a);
    forall i | k <= i < |fl| ensures a <= fl[i].lo {
      if k < i { assert fl[k].Hi() <= fl[i].lo; }
    }
  }

  ghost predicate AllBelow(fl: seq<Tile>, a: nat, k: nat) { k <= |fl| && forall i | 0 <= i < k :: fl[i].lo < a }

  /** The entry before `k`, or null. */
  function Before(fl: seq<Tile>, k: nat): (a: nat)
    requires k <= |fl|
  {
    if k == 0 then 0 else fl[k - 1].lo
  }

  lemma BelowUnique(fl: seq<Tile>, a: nat, k: nat)
    requires AllBelow(fl, a, k) && (k < |fl| ==> a <= fl[k].lo)
    ensures k == Spec.Below(fl, a)
  {
  }

  // ---- copying ------------------------------------------------------------------------

  /** The same cells everywhere but in [lo, hi). */
  ghost predicate SameOutside(mem: Cells, to: Cells, lo: nat, hi: nat) {
    forall a: nat | a < lo || hi <= a :: Load(to, a) == Load(mem, a)
  }

  /** Cells [dst, dst + n) hold what [src, src + n) held. */
  ghost predicate Copied(mem: Cells, to: Cells, dst: nat, src: nat, n: nat) {
    forall a: nat | dst <= a < dst + n :: Load(to, a) == Load(mem, a - dst + src)
  }

  lemma CopyStep(mem: Cells, to: Cells, dst: nat, src: nat, i: nat, n: nat)
    requires i < n && (dst + n <= src || src + n <= dst)
    requires SameOutside(mem, to, dst, dst + i) && Copied(mem, to, dst, src, i)
    ensures var next := to[dst + i := Load(to, src + i)];
            SameOutside(mem, next, dst, dst + i + 1) && Copied(mem, next, dst, src, i + 1)
  {
    var next := to[dst + i := Load(to, src + i)];
    forall a: nat | dst <= a < dst + i + 1 ensures Load(next, a) == Load(mem, a - dst + src) {
      if a < dst + i { assert Load(next, a) == Load(to, a); } else { assert Load(to, src + i) == Load(mem, src + i); }
    }
  }

  /** Copying from a block that is intact copies what it held before. */
  lemma CopyIntact(m0: Cells, m1: Cells, m2: Cells, lives: set<Tile>, b: Tile, q: nat, p: nat, n: nat)
    requires b in lives && p == b.lo + HDR && p + n == b.Hi() && Intact(m0, m1, lives) && Intact(m1, m2, lives)
    requires Copied(m1, m2, q, p, n)
    ensures Intact(m0, m2, lives) && Copied(m0, m2, q, p, n)
  {
    forall a: nat | q <= a < q + n ensures Load(m2, a) == Load(m0, a - q + p) {
      assert b.Has(a - q + p);
    }
  }

  /** Freeing the old block keeps the copy. */
  lemma FreeIntact(m0: Cells, m2: Cells, m3: Cells, lives: set<Tile>, t: Tile, b: Tile, q: nat, p: nat, n: nat)
    requires t !in lives && t != b && q == t.lo + HDR && q + n <= t.Hi()
    requires Intact(m0, m2, lives) && Intact(m2, m3, lives + {t} - {b}) && Copied(m0, m2, q, p, n)
    ensures Copied(m0, m3, q, p, n) && Intact(m0, m3, lives - {b})
  {
    forall a: nat | q <= a < q + n ensures Load(m3, a) == Load(m0, a - q + p) {
      assert t in lives + {t} - {b} && t.Has(a);
    }
    forall u, a: nat | u in lives - {b} && u.Has(a) && (a == u.lo || u.lo + HDR <= a)
      ensures Load(m3, a) == Load(m0, a)
    {
      assert u in lives + {t} - {b};
    }
  }

  /** The new block of a request that outgrows `b` is another one, with room. */
  lemma OtherBlock(h: Heap, g: Heap, q: nat, len: nat, b: Tile)
    requires q != 0 && Spec.Gains(h, g, q, len) && b in Lives(h) && b.len <= len
    ensures HDR <= q
    ensures var t := Tile(Live, q - HDR, len);
            && t in Lives(g) && b in Lives(g) && t != b && t !in Lives(h) && q + b.len - HDR <= t.Hi()
            && Lives(g) - {t} == Lives(h)
  {
  }

  lemma ReallocIs(m: Spec.State, b: Tile, size: nat)
    requires 0 < size && b.len < size + HDR
    ensures var (q, n) := Spec.Malloc(m, size);
            Spec.Realloc(m, b, size) == if q == 0 then (0, n) else (q, Spec.Freed(n, b))
  {
  }

  /** Filling a live block's payload moves no header and no other block. */
  lemma FillSound(mem: Cells, to: Cells, head: nat, h: Heap, t: Tile)
    requires Sound(mem, head, h) && t in Lives(h) && SameOutside(mem, to, t.lo + HDR, t.Hi())
    ensures Sound(to, head, h) && Intact(mem, to, Lives(h) - {t})
  {
    forall k: nat | k < |h.fl| ensures HDR <= h.fl[k].len && Apart(h.fl[k], t) { ListedPositive(h, k); }
    LinkedFrame(mem, to, head, h.fl, 0);
    FillIntact(mem, to, h, t);
    FillSized(mem, to, h, t);
  }

  lemma FillIntact(mem: Cells, to: Cells, h: Heap, t: Tile)
    requires Partition(h) && t in Lives(h) && SameOutside(mem, to, t.lo + HDR, t.Hi())
    ensures Intact(mem, to, Lives(h) - {t})
  {
    forall u, a: nat | u in Lives(h) - {t} && u.Has(a) && (a == u.lo || u.lo + HDR <= a)
      ensures Load(to, a) == Load(mem, a)
    {
      assert Apart(u, t);
    }
  }

  lemma FillSized(mem: Cells, to: Cells, h: Heap, t: Tile)
    requires Partition(h) && Sized(mem, Lives(h)) && t in Lives(h) && SameOutside(mem, to, t.lo + HDR, t.Hi())
    ensures Sized(to, Lives(h))
  {
    LivesPositive(h);
    forall u | u in Lives(h) ensures Load(to, u.lo) == u.len - HDR {
      assert u != t ==> Apart(u, t);
    }
  }

  /** Linking a block in, and merging it with the next, leave it and its
      predecessor where they were. */
  lemma PlaceKept(h: Heap, b: Tile, k: nat)
    requires k <= |h.fl|
    ensures var r := Insert(h, b, k);
            var s := FuseNext(r, k);
            && k < |r.fl| && r.fl[k].lo == b.lo && Before(r.fl, k) == Before(h.fl, k)
            && k < |s.fl| && s.fl[k].lo == b.lo && Before(s.fl, k) == Before(h.fl, k)
  {
  }

  class UserHeap {
    const kernel: Breaks
    const slot: nat
    var freeList: nat
    var heapPtr: nat
    var arenaPtr: nat
    var arenaLeft: nat
    var mem: Cells
    ghost var heap: Heap

    ghost predicate Tied()
      reads this, kernel
    {
      && kernel.Shaped() && slot < MAX_TASKS
      && heapPtr == heap.top && arenaPtr == heap.arena && arenaLeft == heap.left
    }

    ghost function Now(): (m: Spec.State)
      requires Tied()
      reads this, kernel, kernel.base, kernel.brk, kernel.mapped
    {
      Spec.State(heap, kernel.At(slot), kernel.frames)
    }

    ghost predicate Valid()
      reads this, kernel, kernel.base, kernel.brk, kernel.mapped
    {
      Tied() && Spec.Backed(Now()) && Laid(mem, freeList, heap)
    }

    /** A process begins with no heap of its own. */
    constructor (kernel: Breaks, slot: nat)
      requires kernel.Shaped() && slot < MAX_TASKS && Good(kernel.At(slot))
               && kernel.At(slot).brk == kernel.At(slot).base
      ensures Valid() && this.kernel == kernel && this.slot == slot
      ensures Now() == Spec.Initial(kernel.At(slot), kernel.frames)
    {
      this.kernel, this.slot := kernel, slot;
      freeList, heapPtr, arenaPtr, arenaLeft, mem := 0, 0, 0, 0, map[];
      heap := Heap(0, {}, [], 0, 0, 0);
    }

    method Sbrk(increment: nat) returns (p: nat)
      requires Tied() && Good(kernel.At(slot)) && increment < WORD
      modifies this`heapPtr, this`heap, kernel, kernel.base, kernel.brk, kernel.mapped
      ensures Tied() && Now() == old(Spec.Sbrk(Now(), increment).1)
      ensures p == if old(Spec.Sbrk(Now(), increment).0) then old(Spec.Started(heap, kernel.At(slot).brk).top) else 0
    {
      if heapPtr == 0 {
        var base := kernel.Brk(slot, 0);
        if base > Spec.LONG_MAX { return 0; }
        heapPtr := base;
        heap := Spec.Started(heap, base);
      }
      var want := (heapPtr + increment) % WORD;
      var got := kernel.Brk(slot, want);
      if got > Spec.LONG_MAX || got != want { return 0; }
      p := heapPtr;
      heapPtr := want;
      heap := heap.(top := want);
    }

    /** The block at the arena pointer, header first. */
    method Carve(need: nat) returns (p: nat)
      requires Tied()
      modifies this`arenaPtr, this`arenaLeft, this`mem, this`heap
      ensures Tied() && heap == Spec.Carved(old(heap), need)
      ensures p == old(heap.arena) + HDR && mem == Headed(old(mem), old(heap.arena), need)
    {
      var b := arenaPtr;
      mem := mem[b := need];
      mem := mem[b + NEXT := 0];
      arenaPtr := (arenaPtr + (need + HDR) % WORD) % WORD;
      arenaLeft := (arenaLeft - (need + HDR) % WORD) % WORD;
      heap := Spec.Carved(heap, need);
      return b + HDR;
    }

    /** Ask for a chunk and point the arena at it. */
    method Refill(chunk: nat) returns (ok: bool)
      requires Tied() && Good(kernel.At(slot)) && chunk < WORD
      modifies this`heapPtr, this`arenaPtr, this`arenaLeft, this`heap, kernel, kernel.base, kernel.brk, kernel.mapped
      ensures Tied() && ok == old(Spec.Sbrk(Now(), chunk).0)
      ensures var n := old(Spec.Sbrk(Now(), chunk).1);
              Now() ==
                if ok then n.(h := Spec.Granted(n.h, old(Spec.Started(heap, kernel.At(slot).brk).top), chunk)) else n
    {
      var q := Sbrk(chunk);
      if q == 0 { return false; }
      arenaPtr := q;
      arenaLeft := chunk;
      heap := Spec.Granted(heap, q, chunk);
      return true;
    }

    method Bump(need: nat) returns (p: nat)
      requires Tied() && Good(kernel.At(slot)) && need < WORD
      modifies this`heapPtr, this`arenaPtr, this`arenaLeft, this`mem, this`heap, kernel, kernel.base, kernel.brk,
        kernel.mapped
      ensures Tied() && (p, Now()) == old(Spec.Bump(Now(), need))
      ensures mem == BumpMem(old(mem), p, need)
    {
      if arenaLeft < (need + HDR) % WORD {
        BumpViaSbrk(Now(), need);
        var ok := Refill(Up((need + HDR + Spec.ARENA_CHUNK) % WORD));
        if !ok { return 0; }
      }
      p := Carve(need);
    }

    /** The pointer stored at `pp`; 0 is the address of the list head. */
    function ReadLink(pp: nat): (v: nat)
      reads this`freeList, this`mem
    {
      if pp == 0 then freeList else Load(mem, pp)
    }

    method WriteLink(pp: nat, v: nat)
      modifies this`freeList, this`mem
      ensures mem == Aim(old(mem), pp, v) && freeList == if pp == 0 then v else old(freeList)
    {
      if pp == 0 { freeList := v; } else { mem := mem[pp := v]; }
    }

    /** Walk to the first block that is large enough, or to the end. */
    method FindFit(need: nat) returns (pp: nat, ghost k: nat)
      requires NonNull(heap.fl) && Linked(mem, freeList, heap.fl, 0)
      ensures k == Spec.Fit(heap.fl, need) && pp == Hook(heap.fl, k) && ReadLink(pp) == Link(heap.fl, k, 0)
    {
      pp, k := 0, 0;
      while ReadLink(pp) != 0
        invariant k <= |heap.fl| && pp == Hook(heap.fl, k) && ReadLink(pp) == Link(heap.fl, k, 0)
        invariant forall i | 0 <= i < k :: heap.fl[i].len < need + HDR
        decreases |heap.fl| - k
      {
        var b := ReadLink(pp);
        assert Entry(mem, heap.fl, k, 0);
        if Load(mem, b) >= need {
          FitUnique(heap.fl, need, k);
          return;
        }
        pp, k := b + NEXT, k + 1;
      }
      FitUnique(heap.fl, need, k);
    }

    /** Take entry `k` off the list. */
    method Unlink(pp: nat, b: nat, ghost k: nat)
      requires Tied() && Linked(mem, freeList, heap.fl, 0) && k < |heap.fl| && pp == Hook(heap.fl, k)
               && b == heap.fl[k].lo
      modifies this`freeList, this`mem, this`heap
      ensures Tied() && heap == Reuse(old(heap), k)
      ensures mem == Unlinked(old(mem), old(heap).fl, k)
      ensures freeList == if k == 0 then Link(old(heap).fl, 1, 0) else old(freeList)
    {
      assert Entry(mem, heap.fl, k, 0);
      WriteLink(pp, Load(mem, b + NEXT));
      mem := mem[b + NEXT := 0];
      heap := Reuse(heap, k);
    }

    /** `malloc` on the links: first-fit, else the arena. */
    method Take(size: nat) returns (p: nat)
      requires Tied() && Good(kernel.At(slot)) && size < WORD
      requires NonNull(heap.fl) && Linked(mem, freeList, heap.fl, 0)
      modifies this, kernel, kernel.base, kernel.brk, kernel.mapped
      ensures Tied() && (p, Now()) == old(Spec.Malloc(Now(), size))
      ensures mem == old(MallocMem(Now(), mem, Spec.Need(size)))
      ensures freeList == old(MallocHead(heap.fl, freeList, Spec.Need(size)))
    {
      var need := Spec.Need(size);
      Spec.MallocIs(Now(), size);
      var pp, k := FindFit(need);
      var b := ReadLink(pp);
      if b != 0 {
        Unlink(pp, b, k);
        return b + HDR;
      }
      p := Bump(need);
    }

    method Malloc(size: nat) returns (p: nat)
      requires Valid() && size < WORD
      modifies this, kernel, kernel.base, kernel.brk, kernel.mapped
      ensures Tied() && (p, Now()) == old(Spec.Malloc(Now(), size))
      ensures Valid() <==> !old(Spec.Overruns(Now(), size))
      ensures p == 0 <==> old(Spec.Exhausted(Now(), size))
      ensures !old(Spec.Overruns(Now(), size)) ==> Spec.Gains(old(heap), heap, p, old(Spec.Given(Now(), size)))
      ensures Intact(old(mem), mem, Lives(old(heap)))
    {
      ghost var was := Now();
      Spec.MallocNull(was, size);
      if !Spec.Overruns(was, size) { Spec.MallocGains(was, size); }
      ListNonNull(heap);
      p := Take(size);
      Spec.MallocExact(was, size);
      MallocIntact(was, old(mem), old(freeList), Spec.Need(size));
      if !Spec.Overruns(was, size) { MallocLaid(was, old(mem), old(freeList), size); }
    }

    /** Walk to the first listed block at or above `at`. */
    method FindPlace(at: nat) returns (pp: nat, prev: nat, ghost k: nat)
      requires NonNull(heap.fl) && Linked(mem, freeList, heap.fl, 0)
      ensures k == Spec.Below(heap.fl, at) && pp == Hook(heap.fl, k) && ReadLink(pp) == Link(heap.fl, k, 0)
      ensures prev == Before(heap.fl, k)
    {
      pp, prev, k := 0, 0, 0;
      while ReadLink(pp) != 0 && ReadLink(pp) < at
        invariant k <= |heap.fl| && pp == Hook(heap.fl, k) && ReadLink(pp) == Link(heap.fl, k, 0)
        invariant prev == Before(heap.fl, k) && AllBelow(heap.fl, at, k)
        decreases |heap.fl| - k
      {
        assert Entry(mem, heap.fl, k, 0);
        prev := ReadLink(pp);
        pp, k := prev + NEXT, k + 1;
      }
      BelowUnique(heap.fl, at, k);
    }

    method LinkIn(pp: nat, at: nat, ghost k: nat, ghost b: Tile)
      requires Tied() && k <= |heap.fl| && pp == Hook(heap.fl, k) && ReadLink(pp) == Link(heap.fl, k, 0) && at == b.lo
      modifies this`freeList, this`mem, this`heap
      ensures Tied() && heap == Insert(old(heap), b, k) && mem == Hooked(old(mem), old(heap).fl, k, b.lo)
      ensures freeList == if k == 0 then b.lo else old(freeList)
    {
      mem := mem[at + NEXT := ReadLink(pp)];
      WriteLink(pp, at);
      heap := Insert(heap, b, k);
    }

    /** Entry `i`, at `x`, takes in the block `y` that follows it. */
    method Absorb(x: nat, y: nat, ghost i: nat)
      requires Tied() && Linked(mem, freeList, heap.fl, 0) && i + 1 < |heap.fl| && HDR <= heap.fl[i].len
      requires x == heap.fl[i].lo && y == heap.fl[i + 1].lo
      modifies this`mem, this`heap
      ensures Tied() && heap == Fuse(old(heap), i) && mem == Absorbed(old(mem), old(heap).fl, i)
    {
      assert Entry(mem, heap.fl, i, 0) && Entry(mem, heap.fl, i + 1, 0);
      var size, next := Load(mem, x) + HDR + Load(mem, y), Load(mem, y + NEXT);
      mem := mem[x := size];
      mem := mem[x + NEXT := next];
      heap := Fuse(heap, i);
    }

    method MergeNext(at: nat, ghost k: nat)
      requires Tied() && Sound(mem, freeList, heap) && k < |heap.fl| && at == heap.fl[k].lo
      modifies this`mem, this`heap
      ensures Tied() && heap == FuseNext(old(heap), k)
      ensures Sound(mem, freeList, heap) && Lives(heap) == Lives(old(heap)) && Intact(old(mem), mem, Lives(old(heap)))
    {
      TouchTest(mem, freeList, heap, k);
      var next := Load(mem, at + NEXT);
      if next != 0 && at + HDR + Load(mem, at) == next {
        FuseSound(mem, freeList, heap, k);
        Absorb(at, next, k);
      }
    }

    method MergePrev(prev: nat, at: nat, ghost k: nat)
      requires Tied() && Sound(mem, freeList, heap) && k < |heap.fl| && prev == Before(heap.fl, k)
               && at == heap.fl[k].lo
      modifies this`mem, this`heap
      ensures Tied() && heap == FusePrev(old(heap), k)
      ensures Sound(mem, freeList, heap) && Lives(heap) == Lives(old(heap)) && Intact(old(mem), mem, Lives(old(heap)))
    {
      if k > 0 { TouchTest(mem, freeList, heap, k - 1); }
      ListNonNull(heap);
      if prev != 0 && prev + HDR + Load(mem, prev) == at {
        FuseSound(mem, freeList, heap, k - 1);
        Absorb(prev, at, k - 1);
      }
    }

    /** `free` on the links: insert by address, then merge both ways. */
    method Give(at: nat, ghost b: Tile)
      requires Tied() && Sound(mem, freeList, heap) && b in Lives(heap) && at == b.lo
      modifies this`freeList, this`mem, this`heap
      ensures Tied() && heap == HeapTiles.Release(old(heap), b, Spec.Below(old(heap).fl, b.lo))
      ensures Sound(mem, freeList, heap) && Lives(heap) == Lives(old(heap)) - {b} && Intact(old(mem), mem, Lives(heap))
    {
      ListNonNull(heap);
      var pp, prev, k := FindPlace(at);
      InsertSound(mem, freeList, heap, b, k);
      PlaceKept(heap, b, k);
      LinkIn(pp, at, k, b);
      MergeNext(at, k);
      MergePrev(prev, at, k);
    }

    /** Give back a block the caller holds; a null pointer is ignored. */
    method Free(p: nat, ghost b: Tile)
      requires Valid() && (p != 0 ==> b in Lives(heap) && p == b.lo + HDR)
      modifies this`freeList, this`mem, this`heap
      ensures Valid() && Now() == if p == 0 then old(Now()) else Spec.Freed(old(Now()), b)
      ensures Lives(heap) == (if p == 0 then Lives(old(heap)) else Lives(old(heap)) - {b})
              && Intact(old(mem), mem, Lives(heap))
    {
      if p == 0 { return; }
      Spec.FreedKeeps(Now(), b);
      Give(p - HDR, b);
    }

    method Memcpy(dst: nat, src: nat, n: nat)
      requires dst + n <= src || src + n <= dst
      modifies this`mem
      ensures SameOutside(old(mem), mem, dst, dst + n) && Copied(old(mem), mem, dst, src, n)
    {
      var i: nat := 0;
      while i < n
        invariant i <= n && SameOutside(old(mem), mem, dst, dst + i) && Copied(old(mem), mem, dst, src, i)
      {
        CopyStep(old(mem), mem, dst, src, i, n);
        mem := mem[dst + i := Load(mem, src + i)];
        i := i + 1;
      }
    }

    /** Copy the old payload into a new block that has room for it. */
    method Fill(q: nat, p: nat, n: nat, ghost t: Tile, ghost b: Tile)
      requires Valid() && t in Lives(heap) && b in Lives(heap) && t != b
      requires q == t.lo + HDR && p == b.lo + HDR && p + n == b.Hi() && q + n <= t.Hi()
      modifies this`mem
      ensures Valid() && Now() == old(Now()) && Copied(old(mem), mem, q, p, n)
              && Intact(old(mem), mem, Lives(heap) - {t})
    {
      LivesPositive(heap);
      assert Apart(t, b);
      Memcpy(q, p, n);
      FillSound(old(mem), mem, freeList, heap, t);
    }

    /** Copy a block that grows to a new place. */
    method Move(p: nat, size: nat, ghost b: Tile) returns (q: nat)
      requires Valid() && size <= WORD - 16 && !Spec.Overruns(Now(), size)
      requires b in Lives(heap) && p == b.lo + HDR && b.len < size + HDR
      modifies this, kernel, kernel.base, kernel.brk, kernel.mapped
      ensures Valid() && (q, Now()) == old(Spec.Malloc(Now(), size))
      ensures Spec.Gains(old(heap), heap, q, old(Spec.Given(Now(), size)))
      ensures Intact(old(mem), mem, Lives(old(heap)))
      ensures q != 0 ==> Copied(old(mem), mem, q, p, old(Load(mem, b.lo)))
    {
      ghost var m, h := Now(), heap;
      Spec.MallocGains(m, size);
      Spec.MallocGives(m, size);
      var n := Load(mem, p - HDR);
      assert p + n == b.Hi();
      q := Malloc(size);
      if q != 0 {
        OtherBlock(h, heap, q, Spec.Given(m, size), b);
        ghost var t, m1 := Tile(Live, q - HDR, Spec.Given(m, size)), mem;
        Fill(q, p, n, t, b);
        CopyIntact(old(mem), m1, mem, Lives(h), b, q, p, n);
      }
    }

    /** Move a block that grows and give the old place back. */
    method Grow(p: nat, size: nat, ghost b: Tile) returns (q: nat)
      requires Valid() && size <= WORD - 16 && !Spec.Overruns(Now(), size)
      requires b in Lives(heap) && p == b.lo + HDR && b.len < size + HDR && 0 < size
      modifies this, kernel, kernel.base, kernel.brk, kernel.mapped
      ensures Valid() && (q, Now()) == old(Spec.Realloc(Now(), b, size))
      ensures q != 0 ==> Copied(old(mem), mem, q, p, old(Load(mem, b.lo)))
      ensures Intact(old(mem), mem, Lives(old(heap)) - {b})
      ensures q == 0 ==> Intact(old(mem), mem, Lives(old(heap)))
    {
      ghost var m, n := Now(), Load(mem, b.lo);
      assert p + n == b.Hi();
      Spec.MallocGives(m, size);
      q := Move(p, size, b);
      ReallocIs(m, b, size);
      if q != 0 {
        ghost var t, m2 := Tile(Live, q - HDR, Spec.Given(m, size)), mem;
        Free(p, b);
        FreeIntact(old(mem), m2, mem, Lives(old(heap)), t, b, q, p, n);
      }
    }

    /** Resize a block the caller holds. A block that grows keeps its bytes. */
    method Realloc(p: nat, size: nat, ghost b: Tile) returns (q: nat)
      requires Valid() && size < WORD && (p == 0 ==> !Spec.Overruns(Now(), size))
      requires p != 0 ==> b in Lives(heap) && p == b.lo + HDR
      requires p != 0 && Spec.Grows(b, size) ==> size <= WORD - 16 && !Spec.Overruns(Now(), size)
      modifies this, kernel, kernel.base, kernel.brk, kernel.mapped
      ensures Valid()
      ensures (q, Now()) == if p == 0 then old(Spec.Malloc(Now(), size)) else old(Spec.Realloc(Now(), b, size))
      ensures p != 0 && size == 0 ==> q == 0 && Lives(heap) == Lives(old(heap)) - {b}
      ensures p != 0 && 0 < size <= b.len - HDR ==> q == p && Now() == old(Now()) && mem == old(mem)
      ensures p != 0 && 0 < size && b.len - HDR < size ==>
                (q == 0 <==> old(Spec.Exhausted(Now(), size)))
                && Spec.Swaps(old(heap), heap, b, q, old(Spec.Given(Now(), size)))
      ensures p == 0 ==> (q == 0 <==> old(Spec.Exhausted(Now(), size)))
                         && Spec.Gains(old(heap), heap, q, old(Spec.Given(Now(), size)))
      ensures p != 0 && q != 0 ==> Copied(old(mem), mem, q, p, old(Load(mem, b.lo)))
      ensures Intact(old(mem), mem, if p == 0 then Lives(old(heap)) else Lives(old(heap)) - {b})
      ensures q == 0 && 0 < size ==> Intact(old(mem), mem, Lives(old(heap)))
    {
      hide Spec.Overruns, Spec.Exhausted, Spec.Given, Spec.Gains, Spec.Swaps;
      if p == 0 {
        q := Malloc(size);
        return;
      }
      assert p + Load(mem, p - HDR) == b.Hi();
      Spec.ReallocExactly(Now(), b, size);
      if size == 0 {
        Free(p, b);
        return 0;
      }
      if Load(mem, p - HDR) >= size {
        assert Spec.Realloc(Now(), b, size) == (p, Now());
        return p;
      }
      q := Grow(p, size, b);
    }
  }
}
