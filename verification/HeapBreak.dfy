/** The program break of one task slot: a heap of pages that only grows. */
module HeapBreak {
  import opened Words

  const USER_HEAP_BASE := 0x50_0000
  const SYS_ERR_INVAL := WORD - 2
  const SYS_ERR_NOMEM := WORD - 6
  const MAX_TASKS := 16

  /** `(a + 0xFFF) & !0xFFF` in 64 bits. */
  function Up(a: nat): (r: nat) { Down((a + 0xFFF) % WORD) }

  /** One slot: where the heap begins, the break, how far pages are mapped, and
      the page numbers mapped so far, in the order of the calls. */
  datatype Slot = Slot(base: nat, brk: nat, mapped: nat, pages: seq<nat>)

  /** The heap is in order: the break lies between base and mapped end, and
      exactly the pages in between are mapped, each once. */
  ghost predicate Good(s: Slot) {
    && s.base % PAGE == 0 && s.mapped % PAGE == 0
    && 0 < s.base <= s.brk <= s.mapped < WORD
    && |s.pages| == s.mapped / PAGE - s.base / PAGE && forall k | 0 <= k < |s.pages| :: s.pages[k] == s.base / PAGE + k
  }

  function Fresh(base: nat): (s: Slot) {
    var b := if base < USER_HEAP_BASE then USER_HEAP_BASE else Up(base);
    Slot(b, b, b, [])
  }

  /** One more page mapped at the mapped end. */
  function OneMore(s: Slot): (r: Slot) { s.(mapped := s.mapped + PAGE, pages := s.pages + [s.mapped / PAGE]) }

  ghost function Grown(s: Slot, n: nat): (r: Slot) { if n == 0 then s else OneMore(Grown(s, n - 1)) }

  /** The whole call, without its loop: the frames are counted out at once. */
  ghost function Break(s: Slot, frames: nat, addr: nat): (r: (nat, Slot, nat)) {
    var s := if s.brk == 0 then Fresh(0) else s;
    if addr == 0 || addr == s.brk then (s.brk, s, frames)
    else if addr < s.base then (SYS_ERR_INVAL, s, frames)
    else if addr <= s.mapped then (addr, s.(brk := addr), frames)
    else
      var n := Count(s.mapped, Up(addr));
      if n <= frames then (addr, Grown(s, n).(brk := addr), frames - n)
      else (SYS_ERR_NOMEM, Grown(s, frames), 0)
  }

  /** How many pages lie between two page boundaries. */
  function Count(lo: nat, hi: nat): (n: nat) { if hi <= lo then 0 else (hi - lo) / PAGE }

  lemma CountMore(lo: nat, hi: nat, n: nat)
    requires lo % PAGE == 0 && hi % PAGE == 0
    ensures lo + n * PAGE < hi <==> n < Count(lo, hi)
  {
  }

  lemma PageAfter(a: nat, n: nat)
    requires a % PAGE == 0
    ensures (a + n * PAGE) / PAGE == a / PAGE + n && (a + n * PAGE) % PAGE == 0
  {
  }

  /** Growing maps the next `n` pages in order and moves nothing else. */
  lemma {:induction false} GrownPages(s: Slot, n: nat)
    requires s.mapped % PAGE == 0
    ensures var g := Grown(s, n);
            && g.base == s.base && g.brk == s.brk && g.mapped == s.mapped + n * PAGE
            && |g.pages| == |s.pages| + n
            && (forall k | 0 <= k < |s.pages| :: g.pages[k] == s.pages[k])
            && forall k | |s.pages| <= k < |g.pages| :: g.pages[k] == s.mapped / PAGE + k - |s.pages|
  {
    if n > 0 {
      GrownPages(s, n - 1);
      PageAfter(s.mapped, n - 1);
    }
  }

  class Breaks {
    const base: array<nat>
    const brk: array<nat>
    const mapped: array<nat>
    var pages: seq<seq<nat>>
    var frames: nat

    ghost predicate Shaped()
      reads this
    {
      && base.Length == MAX_TASKS && brk.Length == MAX_TASKS && mapped.Length == MAX_TASKS && |pages| == MAX_TASKS
      && base != brk && base != mapped && brk != mapped
    }

    ghost function At(slot: nat): (s: Slot)
      requires Shaped() && slot < MAX_TASKS
      reads this, base, brk, mapped
    {
      Slot(base[slot], brk[slot], mapped[slot], pages[slot])
    }

    constructor (frames: nat)
      ensures Shaped() && this.frames == frames && fresh(base) && fresh(brk) && fresh(mapped)
      ensures forall i: nat | i < MAX_TASKS :: At(i) == Slot(0, 0, 0, [])
    {
      base := new nat[MAX_TASKS](_ => 0);
      brk := new nat[MAX_TASKS](_ => 0);
      mapped := new nat[MAX_TASKS](_ => 0);
      pages := seq(MAX_TASKS, _ => []);
      this.frames := frames;
    }

    /** Reset a slot for a new address space, in which no heap page is mapped. */
    method InitTask(slot: nat, from: nat)
      requires Shaped() && slot < MAX_TASKS
      modifies this`pages, base, brk, mapped
      ensures Shaped() && At(slot) == Fresh(from)
      ensures forall i: nat | i < MAX_TASKS && i != slot :: At(i) == old(At(i))
    {
      var b := if from < USER_HEAP_BASE then USER_HEAP_BASE else Up(from);
      base[slot] := b;
      brk[slot] := b;
      mapped[slot] := b;
      pages := pages[slot := []];
    }

    /** Fork: the child's address space is a copy, and so is its heap. */
    method CloneTask(parent: nat, child: nat)
      requires Shaped() && parent < MAX_TASKS && child < MAX_TASKS
      modifies this`pages, base, brk, mapped
      ensures Shaped() && At(child) == old(At(parent))
      ensures forall i: nat | i < MAX_TASKS && i != child :: At(i) == old(At(i))
    {
      base[child] := base[parent];
      brk[child] := brk[parent];
      mapped[child] := mapped[parent];
      pages := pages[child := pages[parent]];
    }

    /** Map pages from the mapped end up to `end`, or until frames run out. */
    method Grow(slot: nat, end: nat) returns (ok: bool)
      requires Shaped() && slot < MAX_TASKS && mapped[slot] % PAGE == 0 && end % PAGE == 0
      modifies this, mapped
      ensures Shaped()
      ensures var n := Count(old(mapped[slot]), end);
              && (ok <==> n <= old(frames))
              && At(slot) == Grown(old(At(slot)), if ok then n else old(frames))
              && frames == old(frames) - if ok then n else old(frames)
      ensures forall i: nat | i < MAX_TASKS && i != slot :: At(i) == old(At(i))
    {
      ghost var s, f, m := At(slot), frames, mapped[slot];
      var va := Down(mapped[slot]);
      ghost var n: nat := 0;
      while va < end
        invariant Shaped() && va == mapped[slot] == m + n * PAGE
        invariant n <= f && n <= Count(m, end) && frames == f - n
        invariant At(slot) == Grown(s, n)
        invariant forall i: nat | i < MAX_TASKS && i != slot :: At(i) == old(At(i))
        decreases Count(m, end) - n
      {
        CountMore(m, end, n);
        if frames == 0 { return false; }
        MapPage(slot, va);
        va := va + PAGE;
        n := n + 1;
      }
      CountMore(m, end, n);
      return true;
    }

    /** Take a frame and map it at the mapped end. */
    method MapPage(slot: nat, va: nat)
      requires Shaped() && slot < MAX_TASKS && va == mapped[slot] && frames > 0
      modifies this, mapped
      ensures Shaped() && At(slot) == OneMore(old(At(slot))) && frames == old(frames) - 1
      ensures forall i: nat | i < MAX_TASKS && i != slot :: At(i) == old(At(i))
    {
      frames := frames - 1;
      pages := pages[slot := pages[slot] + [va / PAGE]];
      mapped[slot] := va + PAGE;
    }

    method Brk(slot: nat, addr: nat) returns (r: nat)
      requires Shaped() && slot < MAX_TASKS && addr < WORD
      requires mapped[slot] % PAGE == 0
      modifies this, base, brk, mapped
      ensures Shaped()
      ensures (r, At(slot), frames) == old(Break(At(slot), frames, addr))
      ensures forall i: nat | i < MAX_TASKS && i != slot :: At(i) == old(At(i))
    {
      if brk[slot] == 0 { InitTask(slot, 0); }
      if addr == 0 || addr == brk[slot] { return brk[slot]; }
      if addr < base[slot] { return SYS_ERR_INVAL; }
      if addr > mapped[slot] {
        var ok := Grow(slot, Up(addr));
        if !ok { return SYS_ERR_NOMEM; }
      }
      brk[slot] := addr;
      return brk[slot];
    }
  }

  // ---- what the break keeps --------------------------------------------------------

  lemma GrownGood(s: Slot, n: nat)
    requires Good(s) && s.mapped + n * PAGE < WORD
    ensures Good(Grown(s, n)) && Grown(s, n).mapped == s.mapped + n * PAGE
    ensures Grown(s, n).base == s.base && Grown(s, n).brk == s.brk
  {
    GrownPages(s, n);
    PageAfter(s.mapped, n);
  }

  /** A new slot is in order exactly when rounding its base does not wrap, and
      then begins at the lowest heap address or the next page boundary. */
  lemma FreshGood(base: nat)
    requires base < WORD
    ensures Good(Fresh(base)) <==> base <= WORD - PAGE
    ensures base <= WORD - PAGE ==>
              base <= Fresh(base).base && (Fresh(base).base == USER_HEAP_BASE || Fresh(base).base < base + PAGE)
  {
    if base > WORD - PAGE { UpWraps(base); } else if base >= USER_HEAP_BASE { UpIsNext(base); }
  }

  /** A call keeps the heap in order exactly when rounding its argument does
      not wrap; otherwise the break is moved past the mapped end. That holds
      also when frames run out half-way and when the break is lowered. */
  lemma BreakKeepsGood(s: Slot, frames: nat, addr: nat)
    requires Good(s) && addr < WORD
    ensures Good(Break(s, frames, addr).1) <==> addr <= WORD - PAGE
  {
    if s.mapped < addr {
      if addr <= WORD - PAGE { GrowthKeepsGood(s, frames, addr); } else { UpWraps(addr); }
    }
  }

  /** The last address of all is such an argument: the call succeeds at once,
      and the break is past the mapped end. */
  lemma LastAddressWraps(base: nat, frames: nat)
    requires base <= WORD - PAGE
    ensures var s := Fresh(base); Good(s) && Break(s, frames, WORD - 1) == (WORD - 1, s.(brk := WORD - 1), frames)
    ensures !Good(Break(Fresh(base), frames, WORD - 1).1)
  {
    var s := Fresh(base);
    FreshGood(base);
    UpWraps(WORD - 1);
    if base < USER_HEAP_BASE { assert s.mapped == USER_HEAP_BASE; } else { UpIsNext(base); }
    assert Count(s.mapped, Up(WORD - 1)) == 0;
  }

  lemma GrowthKeepsGood(s: Slot, frames: nat, addr: nat)
    requires Good(s) && s.mapped < addr <= WORD - PAGE
    ensures Good(Break(s, frames, addr).1)
  {
    UpIsNext(addr);
    var n := Count(s.mapped, Up(addr));
    CountExact(s.mapped, Up(addr));
    if n <= frames { GrownGood(s, n); } else { GrownGood(s, frames); }
  }

  lemma CountExact(lo: nat, hi: nat)
    requires lo <= hi && lo % PAGE == 0 && hi % PAGE == 0
    ensures lo + Count(lo, hi) * PAGE == hi
  {
  }

  lemma UpWraps(addr: nat)
    requires WORD - PAGE < addr < WORD
    ensures Up(addr) == 0
  {
  }

  lemma UpIsNext(addr: nat)
    requires addr <= WORD - PAGE
    ensures Up(addr) % PAGE == 0 && addr <= Up(addr) < addr + PAGE && Up(addr) < WORD
  {
    assert (addr + 0xFFF) % WORD == addr + 0xFFF;
  }

  /** A successful call puts the break where it was asked to. */
  lemma BreakSucceeds(s: Slot, frames: nat, addr: nat)
    requires Good(s) && 0 < addr <= WORD - PAGE && Break(s, frames, addr).0 == addr
    ensures Break(s, frames, addr).1.brk == addr && Break(s, frames, addr).1.base == s.base
  {
    GrownPages(s, Count(s.mapped, Up(addr)));
  }

  /** The break moves exactly if the address is not below the heap and the pages
      that are missing can be had; frames are neither lost nor made, the pages
      mapped stay mapped, and as few are added as will do. */
  lemma BreakExactly(s: Slot, frames: nat, addr: nat)
    requires Good(s) && 0 < addr <= WORD - PAGE
    ensures var (got, t, f) := Break(s, frames, addr);
            && (got == addr <==> s.base <= addr && addr <= s.mapped + frames * PAGE)
            && (got != addr ==> t.brk == s.brk && got == if addr < s.base then WORD - 2 else WORD - 6)
            && s.pages <= t.pages && |t.pages| + f == |s.pages| + frames
            && (t.pages != s.pages ==> s.mapped < addr && (got != addr || t.mapped < addr + PAGE))
    ensures Break(s, frames, 0) == (s.brk, s, frames)
  {
    UpIsNext(addr);
    if s.mapped < addr {
      var n := Count(s.mapped, Up(addr));
      CountExact(s.mapped, Up(addr));
      GrownPages(s, n);
      GrownPages(s, frames);
      CountMore(s.mapped, Up(addr), frames);
    }
  }

  /** Every page that holds a byte of the heap below the break is mapped, by
      exactly one of the calls. */
  lemma HeapBytesMapped(s: Slot, a: nat)
    requires Good(s) && s.base <= a < s.brk
    ensures exists k :: 0 <= k < |s.pages| && s.pages[k] == a / PAGE
    ensures forall i, k | 0 <= i < k < |s.pages| :: s.pages[i] != s.pages[k]
  {
    assert s.pages[a / PAGE - s.base / PAGE] == a / PAGE;
  }
}
