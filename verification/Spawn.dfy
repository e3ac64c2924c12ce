/** Building a user address space and giving it back when spawning fails. */
module Spawn {
  import opened Wrappers
  import opened Bitmaps
  import opened FrameAllocator
  import opened Paging

  const USER_STACK_TOP := 0x304000
  const USER_STACK_PAGES := 4
  const STACK_PAGES := 4

  /** What the checks on an ELF file come to. A bad header is found before the
      root is taken, a bad segment afterwards. */
  datatype Image = BadHeader | BadSegment | Pages(pages: seq<(nat, Prot)>)

  /** `Panicked` is a page table that could not be allocated. */
  datatype Outcome = Panicked | LoadFailed | NoUserStack | NoKernelStack | Spawned(root: nat, stack: nat)

  /** `NoTable` stands for the panic, `Exhausted` for a page without a frame. */
  datatype Loading = Loaded | Refused | Rejected | Exhausted | NoTable

  /** The image's pages: each below the user top, none twice. */
  predicate Separate(pages: seq<(nat, Prot)>) {
    && (forall i | 0 <= i < |pages| :: pages[i].0 < USER_TOP)
    && (forall i, j | 0 <= i < j < |pages| :: Vpn(pages[i].0) != Vpn(pages[j].0))
  }

  function PagesOf(image: Image): (pages: seq<(nat, Prot)>) { if image.Pages? then image.pages else [] }

  /** No page of the image is a page of the user stack. */
  predicate ClearOfStack(pages: seq<(nat, Prot)>) {
    forall i, j: nat | 0 <= i < |pages| && j < USER_STACK_PAGES :: Vpn(pages[i].0) != Vpn(StackPage(j))
  }

  function StackPage(i: nat): (va: nat) { USER_STACK_TOP - USER_STACK_PAGES * 4096 + i * 4096 }

  type Key = (nat, nat, nat)
  type Flat = map<Key, Pte>

  // ---- the image -----------------------------------------------------------------------

  /** Exactly the pages listed are mapped, each to its frame with its rights. */
  ghost predicate FlatIs(flat: Flat, pages: seq<(nat, Prot)>, fs: seq<nat>) {
    && |fs| == |pages|
    && (forall i | 0 <= i < |pages| :: MapsTo(flat, Vpn(pages[i].0), fs[i], pages[i].1))
    && (forall k | k in flat :: exists i :: 0 <= i < |pages| && k == Vpn(pages[i].0))
  }

  ghost predicate MapsTo(flat: Flat, k: Key, f: nat, prot: Prot) { k in flat && flat[k] == LeafEntry(f, prot) }

  /** Every page has a frame of its own, which is no page table. */
  ghost predicate Private(sp: Space) {
    && (forall k, l | k in sp.flat && l in sp.flat && sp.flat[k].ppn == sp.flat[l].ppn :: k == l)
    && sp.Tables() !! sp.Leaves()
  }

  /** What holds after each page: `pages` are mapped to the frames `fs`, taken
      from `p0`. */
  ghost predicate Progress(p0: Pool, p: Pool, m: Memory, sp: Space, pages: seq<(nat, Prot)>, fs: seq<nat>,
                           kernelRoot: nat)
  {
    Built(p0, p, sp) && Private(sp) && FlatIs(sp.flat, pages, fs) && Apart(p, m, sp, kernelRoot)
  }

  lemma NothingMapped(p0: Pool, p: Pool, m: Memory, root: nat, kernelRoot: nat)
    requires root in p0.free && p.free == p0.free - {root} && p.owned == p0.owned + {root}
    requires Apart(p, m, Space(root, map[], map[], map[]), kernelRoot)
    ensures Progress(p0, p, m, Space(root, map[], map[], map[]), [], [], kernelRoot)
  {
    EmptyBuilt(p0, p, root);
  }

  /** A fresh frame mapped at an unmapped page stays the only one there. */
  lemma StaysPrivate(p0: Pool, p: Pool, p1: Pool, p2: Pool, sp: Space, s: Space, k: Key, f: nat, prot: Prot)
    requires Built(p0, p, sp) && Private(sp) && f in p.free && p1.free == p.free - {f}
    requires Grew(p1, p2, sp, s) && k !in sp.flat && s.flat == sp.flat[k := LeafEntry(f, prot)]
    ensures Private(s)
  {
    LeavesGain(sp, s, k, LeafEntry(f, prot));
    forall l | l in sp.flat ensures sp.flat[l].ppn in sp.Leaves() { assert sp.flat[l] in sp.flat.Values; }
    assert f !in sp.Frames();
    assert s.Tables() <= sp.Tables() + p1.free;
  }

  lemma OneMore(flat: Flat, flat': Flat, pages: seq<(nat, Prot)>, fs: seq<nat>, va: nat, prot: Prot, f: nat)
    requires FlatIs(flat, pages, fs) && Vpn(va) !in flat && flat' == flat[Vpn(va) := LeafEntry(f, prot)]
    ensures FlatIs(flat', pages + [(va, prot)], fs + [f])
  {
    hide Vpn;
    var q := pages + [(va, prot)];
    forall i | 0 <= i < |q| ensures MapsTo(flat', Vpn(q[i].0), (fs + [f])[i], q[i].1) {
      if i < |pages| { assert MapsTo(flat, Vpn(pages[i].0), fs[i], pages[i].1); }
    }
    forall k | k in flat' ensures exists i :: 0 <= i < |q| && k == Vpn(q[i].0) {
      if k == Vpn(va) {
        assert k == Vpn(q[|pages|].0);
      } else {
        var i :| 0 <= i < |pages| && k == Vpn(pages[i].0);
        assert k == Vpn(q[i].0);
      }
    }
  }

  lemma PageLoaded(p0: Pool, p: Pool, p1: Pool, p2: Pool, m: Memory, m': Memory, sp: Space, s: Space,
                   pages: seq<(nat, Prot)>, fs: seq<nat>, va: nat, f: nat, prot: Prot, kernelRoot: nat)
    requires Progress(p0, p, m, sp, pages, fs, kernelRoot) && Vpn(va) !in sp.flat
    requires f in p.free && p1.free == p.free - {f} && p1.owned == p.owned + {f}
    requires Became(p1, p2, m, m', sp, s) && s.flat == sp.flat[Vpn(va) := LeafEntry(f, prot)]
    ensures Progress(p0, p2, m', s, pages + [(va, prot)], fs + [f], kernelRoot)
  {
    hide Holds, Private, FlatIs, Apart, Vpn;
    var k := Vpn(va);
    LeavesGain(sp, s, k, LeafEntry(f, prot));
    MapsKeepAccount(p0, p, p1, p2, sp, s, {f});
    StaysPrivate(p0, p, p1, p2, sp, s, k, f, prot);
    OneMore(sp.flat, s.flat, pages, fs, va, prot, f);
    TakeStaysApart(p, p1, m, sp, kernelRoot);
    StaysApart(p1, p2, m, m', sp, s, kernelRoot);
  }

  /** The tree `sp` under `root` maps `pages` to `fs`. */
  ghost predicate OnCourse(vm: Sv39, p0: Pool, sp: Space, pages: seq<(nat, Prot)>, fs: seq<nat>, root: nat)
    reads vm, vm.fa.Repr()
  {
    vm.Has(sp) && sp.root == root && Progress(p0, vm.fa.State(), vm.mem, sp, pages, fs, vm.kernelRoot)
  }

  lemma UserAddress(va: nat)
    requires va < USER_TOP
    ensures InUserHalf(va)
  {
  }

  /** Allocate one frame and map it. What is said of the tree is said of `good`
      images: their pages are below the user top, none twice. */
  method LoadPage(vm: Sv39, ghost good: bool, ghost p0: Pool, ghost sp: Space, ghost done: seq<(nat, Prot)>,
                  ghost fs: seq<nat>, root: nat, va: nat, prot: Prot)
    returns (r: Loading, ghost s: Space, ghost f: nat)
    requires vm.Valid()
    requires good ==> OnCourse(vm, p0, sp, done, fs, root) && va < USER_TOP && Vpn(va) !in sp.flat
    modifies vm`mem, vm.fa.Repr()
    ensures vm.Valid() && (r.Loaded? || r.Exhausted? || r.NoTable?)
    ensures good && r.Loaded? ==> OnCourse(vm, p0, s, done + [(va, prot)], fs + [f], root)
    ensures good && r.Exhausted? ==> OnCourse(vm, p0, s, done, fs, root)
    ensures r.Exhausted? || r.NoTable? ==> vm.fa.State().free == {}
  {
    hide Progress, Holds, Vpn, Became, Threaded;
    s, f := sp, 0;
    ghost var p, m := vm.fa.State(), vm.mem;
    var a := vm.fa.Alloc();
    if a.None? { return Exhausted, s, f; }
    ghost var p1 := vm.fa.State();
    f := a.value / FRAME_SIZE;
    var ok;
    ok, s := vm.MapUserPage(sp, root, va, a.value, prot);
    if !ok { return NoTable, s, f; }
    if good {
      UserAddress(va);
      StillHas(vm.fa.State(), vm.mem, m, p1, sp, s);
      PageLoaded(p0, p, p1, vm.fa.State(), m, vm.mem, sp, s, done, fs, va, f, prot, vm.kernelRoot);
    }
    r := Loaded;
  }

  lemma StillHas(p': Pool, m': Memory, m: Memory, p: Pool, sp: Space, s: Space)
    requires Became(p, p', m, m', sp, s)
    ensures Holds(m', s) && s.Tables() <= p'.owned && s.root == sp.root
  {
  }

  lemma NotYet(flat: Flat, pages: seq<(nat, Prot)>, fs: seq<nat>, i: nat)
    requires i < |pages| && Separate(pages) && FlatIs(flat, pages[..i], fs)
    ensures pages[i].0 < USER_TOP && Vpn(pages[i].0) !in flat
  {
    forall j | 0 <= j < i ensures Vpn(pages[..i][j].0) != Vpn(pages[i].0) { assert pages[..i][j] == pages[j]; }
  }

  lemma NextPage(p0: Pool, p: Pool, m: Memory, sp: Space, pages: seq<(nat, Prot)>, fs: seq<nat>, i: nat,
                 kernelRoot: nat)
    requires i < |pages| && Separate(pages) && Progress(p0, p, m, sp, pages[..i], fs, kernelRoot)
    ensures pages[i].0 < USER_TOP && Vpn(pages[i].0) !in sp.flat
  {
    NotYet(sp.flat, pages, fs, i);
  }

  lemma ProgressIsBuilt(p0: Pool, p: Pool, m: Memory, sp: Space, pages: seq<(nat, Prot)>, fs: seq<nat>, kernelRoot: nat)
    requires Progress(p0, p, m, sp, pages, fs, kernelRoot)
    ensures Built(p0, p, sp)
  {
  }

  /** Allocate and map every page under a root that maps nothing yet. */
  method LoadPages(vm: Sv39, ghost p0: Pool, root: nat, pages: seq<(nat, Prot)>)
    returns (r: Loading, ghost sp: Space, ghost fs: seq<nat>)
    requires vm.Valid() && OnCourse(vm, p0, Space(root, map[], map[], map[]), [], [], root)
    modifies vm`mem, vm.fa.Repr()
    ensures vm.Valid() && (r.Loaded? || r.Exhausted? || r.NoTable?)
    ensures Separate(pages) && r.Loaded? ==> OnCourse(vm, p0, sp, pages, fs, root)
    ensures Separate(pages) && r.Exhausted? ==> Built(p0, vm.fa.State(), sp)
    ensures r.Exhausted? || r.NoTable? ==> vm.fa.State().free == {}
  {
    hide Progress, FlatIs, Vpn, Holds, Separate, Built;
    sp, fs := Space(root, map[], map[], map[]), [];
    ghost var good := Separate(pages);
    var i: nat := 0;
    while i < |pages|
      invariant i <= |pages| && vm.Valid() && (good ==> OnCourse(vm, p0, sp, pages[..i], fs, root))
    {
      if good { NextPage(p0, vm.fa.State(), vm.mem, sp, pages, fs, i, vm.kernelRoot); }
      ghost var f;
      r, sp, f := LoadPage(vm, good, p0, sp, pages[..i], fs, root, pages[i].0, pages[i].1);
      if good && r.Exhausted? { ProgressIsBuilt(p0, vm.fa.State(), vm.mem, sp, pages[..i], fs, vm.kernelRoot); }
      if !r.Loaded? { return; }
      assert pages[..i + 1] == pages[..i] + [(pages[i].0, pages[i].1)];
      fs := fs + [f];
      i := i + 1;
    }
    assert pages[..|pages|] == pages;
    r := Loaded;
  }

  /** Load the image under a fresh root. What a failed load took is still taken
      when it returns. */
  method Load(vm: Sv39, image: Image) returns (r: Loading, root: nat, ghost sp: Space, ghost fs: seq<nat>)
    requires vm.Valid() && vm.kernelRoot !in vm.fa.State().free
    modifies vm`mem, vm.fa.Repr()
    ensures vm.Valid()
    ensures r.Refused? <==> image.BadHeader?
    ensures r.Refused? ==> vm.fa.State() == old(vm.fa.State()) && vm.mem == old(vm.mem)
    ensures Separate(PagesOf(image)) && (r.Loaded? || r.Rejected?) ==>
              OnCourse(vm, old(vm.fa.State()), sp, PagesOf(image), fs, root)
    ensures (r.Loaded? ==> image.Pages?) && (r.Rejected? ==> image.BadSegment?)
    ensures Separate(PagesOf(image)) && r.Exhausted? ==> Built(old(vm.fa.State()), vm.fa.State(), sp)
    ensures r.Exhausted? || r.NoTable? ==> vm.fa.State().free == {}
  {
    hide Progress, Holds, Separate, Built;
    root, sp, fs := 0, Space(0, map[], map[], map[]), [];
    if image.BadHeader? { return Refused, root, sp, fs; }
    ghost var p0 := vm.fa.State();
    var ok;
    ok, root := vm.NewUserRoot();
    if !ok { return NoTable, root, sp, fs; }
    sp := Space(root, map[], map[], map[]);
    NothingMapped(p0, vm.fa.State(), vm.mem, root, vm.kernelRoot);
    if image.BadSegment? { return Rejected, root, sp, fs; }
    r, sp, fs := LoadPages(vm, p0, root, image.pages);
  }

  // ---- the user stack ---------------------------------------------------------------------

  /** The flat map with the first `i` stack pages mapped to frames `first`,
      `first + 1`, ... over whatever was there. */
  ghost function Overlay(flat: Flat, first: nat, i: nat): (r: Flat) {
    if i == 0 then flat else Overlay(flat, first, i - 1)[Vpn(StackPage(i - 1)) := LeafEntry(first + (i - 1), Rw)]
  }

  /** The indices of the first `i` stack pages. */
  ghost predicate StackKey(k: Key, i: nat) { exists j: nat :: j < i && k == Vpn(StackPage(j)) }

  /** The frames of image pages that the stack takes the place of. */
  ghost function Displaced(flat: Flat, i: nat): (s: set<nat>) { set k | k in flat && StackKey(k, i) :: flat[k].ppn }

  lemma StackKeysDiffer(i: nat, j: nat)
    requires i < j < USER_STACK_PAGES
    ensures Vpn(StackPage(i)) != Vpn(StackPage(j))
  {
    VpnSeparates(StackPage(i), StackPage(j));
  }

  lemma {:induction false} OverlayIs(flat: Flat, first: nat, i: nat)
    requires i <= USER_STACK_PAGES
    ensures forall k :: k in Overlay(flat, first, i) <==> k in flat || StackKey(k, i)
    ensures forall k | k in flat && !StackKey(k, i) :: Overlay(flat, first, i)[k] == flat[k]
    ensures forall j: nat | j < i :: Vpn(StackPage(j)) in Overlay(flat, first, i)
    ensures forall j: nat | j < i :: Overlay(flat, first, i)[Vpn(StackPage(j))] == LeafEntry(first + j, Rw)
  {
    hide Vpn, StackPage;
    if i > 0 {
      OverlayIs(flat, first, i - 1);
      forall k ensures StackKey(k, i) <==> StackKey(k, i - 1) || k == Vpn(StackPage(i - 1)) {}
      forall j: nat | j < i - 1 ensures Vpn(StackPage(j)) != Vpn(StackPage(i - 1)) { StackKeysDiffer(j, i - 1); }
    }
  }

  /** The frames mapped afterwards: the block, and those not displaced. */
  lemma OverlayLeaves(sp: Space, s: Space, first: nat)
    requires Private(sp) && s.flat == Overlay(sp.flat, first, USER_STACK_PAGES)
    ensures s.Leaves() == (sp.Leaves() - Displaced(sp.flat, USER_STACK_PAGES)) + Block(first, USER_STACK_PAGES)
    ensures Displaced(sp.flat, USER_STACK_PAGES) <= sp.Leaves()
  {
    hide Vpn, Overlay, StackPage;
    var n := USER_STACK_PAGES;
    OverlayIs(sp.flat, first, n);
    forall f | f in s.Leaves() ensures f in (sp.Leaves() - Displaced(sp.flat, n)) + Block(first, n) {
      LeafFound(s, f);
      var k :| k in s.flat && s.flat[k].ppn == f;
      if !StackKey(k, n) { KeptLeaf(sp, k, n); }
    }
    forall f | f in Block(first, n) ensures f in s.Leaves() {
      var j: nat := f - first;
      LeafOf(s, Vpn(StackPage(j)));
    }
    forall f | f in sp.Leaves() && f !in Displaced(sp.flat, n) ensures f in s.Leaves() {
      LeafFound(sp, f);
      var k :| k in sp.flat && sp.flat[k].ppn == f;
      LeafOf(s, k);
    }
    forall f | f in Displaced(sp.flat, n) ensures f in sp.Leaves() {
      var k :| k in sp.flat && StackKey(k, n) && sp.flat[k].ppn == f;
      LeafOf(sp, k);
    }
  }

  lemma LeafOf(sp: Space, k: Key)
    requires k in sp.flat
    ensures sp.flat[k].ppn in sp.Leaves()
  {
    assert sp.flat[k] in sp.flat.Values;
  }

  lemma LeafFound(sp: Space, f: nat)
    requires f in sp.Leaves()
    ensures exists k :: k in sp.flat && sp.flat[k].ppn == f
  {
  }

  lemma KeptLeaf(sp: Space, k: Key, n: nat)
    requires Private(sp) && k in sp.flat && !StackKey(k, n)
    ensures sp.flat[k].ppn in sp.Leaves() && sp.flat[k].ppn !in Displaced(sp.flat, n)
  {
    LeafOf(sp, k);
  }

  /** The tables grew as needed and the first `i` stack pages are mapped. */
  ghost predicate Stacked(p: Pool, p': Pool, m: Memory, sp: Space, s: Space, first: nat, i: nat, kernelRoot: nat) {
    Grew(p, p', sp, s) && s.flat == Overlay(sp.flat, first, i) && Apart(p', m, s, kernelRoot)
  }

  lemma StackStart(p: Pool, m: Memory, sp: Space, first: nat, kernelRoot: nat)
    requires Apart(p, m, sp, kernelRoot)
    ensures Stacked(p, p, m, sp, sp, first, 0, kernelRoot)
  {
    assert sp.Tables() - sp.Tables() == {};
  }

  lemma StackStep(p: Pool, q: Pool, r: Pool, m: Memory, m': Memory, sp: Space, t: Space, s: Space, first: nat, i: nat,
                  kernelRoot: nat)
    requires Stacked(p, q, m, sp, t, first, i, kernelRoot) && Became(q, r, m, m', t, s)
    requires s.flat == t.flat[Vpn(StackPage(i)) := LeafEntry(first + i, Rw)]
    ensures Stacked(p, r, m', sp, s, first, i + 1, kernelRoot)
  {
    hide Holds, Apart, Vpn;
    GrewTwice(p, q, r, sp, t, s);
    StaysApart(q, r, m, m', t, s, kernelRoot);
  }

  lemma FrameOfAddress(f: nat)
    ensures f * FRAME_SIZE / FRAME_SIZE == f
  {
  }

  /** Map one frame, by its number, read and write. */
  method MapFrame(vm: Sv39, ghost good: bool, ghost sp: Space, ghost k: Key, root: nat, va: nat, f: nat)
    returns (ok: bool, ghost s: Space)
    requires vm.Valid() && (good ==> vm.Has(sp) && sp.root == root && va < USER_TOP && k == Vpn(va))
    modifies vm`mem, vm.fa.Repr()
    ensures vm.Valid() && (!ok ==> vm.fa.State().free == {})
    ensures good && ok ==> vm.Has(s) && Became(old(vm.fa.State()), vm.fa.State(), old(vm.mem), vm.mem, sp, s)
    ensures good && ok ==> s.root == root && s.flat == sp.flat[k := LeafEntry(f, Rw)]
  {
    hide Holds, Vpn, Became, Threaded;
    FrameOfAddress(f);
    ghost var p, m := vm.fa.State(), vm.mem;
    ok, s := vm.MapUserPage(sp, root, va, f * FRAME_SIZE, Rw);
    if good && ok {
      UserAddress(va);
      StillHas(vm.fa.State(), vm.mem, m, p, sp, s);
    }
  }

  method MapStackPage(vm: Sv39, ghost good: bool, ghost p: Pool, ghost sp: Space, ghost t: Space, root: nat, first: nat,
                      i: nat)
    returns (ok: bool, ghost s: Space)
    requires vm.Valid() && i < USER_STACK_PAGES
    requires good ==>
               vm.Has(t) && t.root == root && Stacked(p, vm.fa.State(), vm.mem, sp, t, first, i, vm.kernelRoot)
    modifies vm`mem, vm.fa.Repr()
    ensures vm.Valid() && (!ok ==> vm.fa.State().free == {})
    ensures good && ok ==>
              vm.Has(s) && s.root == root && Stacked(p, vm.fa.State(), vm.mem, sp, s, first, i + 1, vm.kernelRoot)
  {
    hide Stacked, Holds, Vpn, Became;
    ghost var q, m := vm.fa.State(), vm.mem;
    ok, s := MapFrame(vm, good, t, Vpn(StackPage(i)), root, StackPage(i), first + i);
    if good && ok { StackStep(p, q, vm.fa.State(), m, vm.mem, sp, t, s, first, i, vm.kernelRoot); }
  }

  /** Map the stack pages to the block of frames beginning at `first`. */
  method MapStack(vm: Sv39, ghost good: bool, ghost sp: Space, root: nat, first: nat) returns (ok: bool, ghost s: Space)
    requires vm.Valid()
    requires good ==> vm.Has(sp) && sp.root == root && Apart(vm.fa.State(), vm.mem, sp, vm.kernelRoot)
    modifies vm`mem, vm.fa.Repr()
    ensures vm.Valid() && (!ok ==> vm.fa.State().free == {})
    ensures good && ok ==>
              && vm.Has(s) && s.root == root
              && Stacked(old(vm.fa.State()), vm.fa.State(), vm.mem, sp, s, first, USER_STACK_PAGES, vm.kernelRoot)
  {
    hide Stacked, Holds, Apart;
    s := sp;
    ghost var p := vm.fa.State();
    if good { StackStart(p, vm.mem, sp, first, vm.kernelRoot); }
    var i: nat := 0;
    ok := true;
    while i < USER_STACK_PAGES && ok
      invariant i <= USER_STACK_PAGES && vm.Valid() && (!ok ==> vm.fa.State().free == {})
      invariant good && ok ==>
                  vm.Has(s) && s.root == root && Stacked(p, vm.fa.State(), vm.mem, sp, s, first, i, vm.kernelRoot)
      decreases USER_STACK_PAGES - i
    {
      ok, s := MapStackPage(vm, good, p, sp, s, root, first, i);
      i := i + 1;
    }
  }

  // ---- the account ----------------------------------------------------------------------------

  /** The block `b` went from free to owned. */
  ghost predicate Took(p: Pool, p': Pool, b: set<nat>) {
    b <= p.free && p'.free == p.free - b && p'.owned == p.owned + b
  }

  lemma TookBlock(p: Pool, p': Pool, n: nat, r: Option<nat>)
    requires r.Some? && ContiguousStep(p, p', n, r)
    ensures Took(p, p', Block(r.value / FRAME_SIZE, n))
  {
  }

  /** A block of `n` frames in a row, by its first frame number. */
  method TakeBlock(vm: Sv39, n: nat) returns (r: Option<nat>)
    requires vm.Valid() && 0 < n <= TOTAL
    modifies vm.fa.Repr()
    ensures vm.Valid()
    ensures r.None? ==> vm.fa.State() == old(vm.fa.State()) && NoRunOnASide(vm.fa.State(), n)
    ensures r.Some? ==> Took(old(vm.fa.State()), vm.fa.State(), Block(r.value, n))
  {
    ghost var p := vm.fa.State();
    var a := vm.fa.AllocContiguous(n);
    if a.None? { return None; }
    TookBlock(p, vm.fa.State(), n, a);
    return Some(a.value / FRAME_SIZE);
  }

  /** After the stack is mapped: the frames of the tree and the displaced ones
      are what was taken, and the two are apart. */
  lemma StackAccounted(p0: Pool, p: Pool, p1: Pool, p2: Pool, m: Memory, sp: Space, s: Space, first: nat,
                       kernelRoot: nat)
    requires Built(p0, p, sp) && Private(sp) && Took(p, p1, Block(first, USER_STACK_PAGES))
    requires Stacked(p1, p2, m, sp, s, first, USER_STACK_PAGES, kernelRoot)
    ensures var lost := Displaced(sp.flat, USER_STACK_PAGES);
            && lost !! s.Frames() && Took(p0, p2, s.Frames() + lost) && Block(first, USER_STACK_PAGES) <= s.Frames()
  {
    hide Displaced, Overlay, Apart, Private;
    var lost, b := Displaced(sp.flat, USER_STACK_PAGES), Block(first, USER_STACK_PAGES);
    OverlayLeaves(sp, s, first);
    var new' := s.Tables() - sp.Tables();
    assert s.Tables() == sp.Tables() + new';
    assert sp.Tables() !! sp.Leaves() by { PrivateApart(sp); }
    assert s.Frames() + lost == sp.Frames() + b + new';
    assert p2.free == p0.free - (s.Frames() + lost);
    assert p2.owned == p0.owned + (s.Frames() + lost);
  }

  lemma PrivateApart(sp: Space)
    requires Private(sp)
    ensures sp.Tables() !! sp.Leaves()
  {
  }

  /** Giving back the stack block by hand and then the whole tree gives back
      all but the displaced frames, and each once. */
  lemma UnwindGivesBack(p0: Pool, p: Pool, m: Memory, s: Space, lost: set<nat>, b: set<nat>)
    requires p0.Sound() && Holds(m, s) && lost !! s.Frames() && Took(p0, p, s.Frames() + lost) && b <= s.Frames()
    ensures Took(p0, Released(Released(p, b), MetInRoot(m, s.root, 256) + {s.root}), lost)
  {
    MeetsItsFrames(m, s);
    ReleasedTwice(p, b, s.Frames());
    var g := s.Frames();
    assert b + g == g && g * p.owned == g;
    assert p0.free - (g + lost) + g == p0.free - lost;
    assert p0.owned + (g + lost) - g == p0.owned + lost;
  }

  lemma TookTwice(p0: Pool, p: Pool, p': Pool, a: set<nat>, b: set<nat>)
    requires Took(p0, p, a) && Took(p, p', b)
    ensures Took(p0, p', a + b) && a !! b
  {
    assert p0.free - a - b == p0.free - (a + b);
    assert p0.owned + a + b == p0.owned + (a + b);
  }

  /** The stack displaces nothing exactly if the image stays clear of it. */
  lemma NothingDisplaced(flat: Flat, pages: seq<(nat, Prot)>, fs: seq<nat>)
    requires FlatIs(flat, pages, fs)
    ensures Displaced(flat, USER_STACK_PAGES) == {} <==> ClearOfStack(pages)
  {
    hide Vpn, StackPage;
    forall f | f in Displaced(flat, USER_STACK_PAGES) ensures !ClearOfStack(pages) {
      var k :| k in flat && StackKey(k, USER_STACK_PAGES) && flat[k].ppn == f;
      var i :| 0 <= i < |pages| && k == Vpn(pages[i].0);
      var j: nat :| j < USER_STACK_PAGES && k == Vpn(StackPage(j));
    }
    forall i, j: nat | 0 <= i < |pages| && j < USER_STACK_PAGES && Vpn(pages[i].0) == Vpn(StackPage(j))
      ensures Displaced(flat, USER_STACK_PAGES) != {}
    {
      var k := Vpn(pages[i].0);
      assert MapsTo(flat, k, fs[i], pages[i].1) && StackKey(k, USER_STACK_PAGES);
      assert flat[k].ppn in Displaced(flat, USER_STACK_PAGES);
    }
  }

  // ---- what the new task sees ------------------------------------------------------------------

  predicate OnStack(va: nat) { StackPage(0) <= va < USER_STACK_TOP }

  predicate PageOf(pages: seq<(nat, Prot)>, i: nat, va: nat) { i < |pages| && pages[i].0 / 4096 == va / 4096 }

  /** Stack addresses reach the stack's frames, image addresses the frame of
      their page with the image's rights, and no other user address reaches
      anything. */
  ghost predicate Visible(m: Memory, root: nat, pages: seq<(nat, Prot)>, fs: seq<nat>, first: nat, va: nat)
    requires |fs| == |pages|
  {
    var w := Walk(m, root, va);
    if OnStack(va) then w == Page(0, LeafEntry(first + (va - StackPage(0)) / 4096, Rw))
    else if exists i: nat :: PageOf(pages, i, va)
    then forall i: nat | PageOf(pages, i, va) :: w == Page(0, LeafEntry(fs[i], pages[i].1))
    else w == Fault
  }

  lemma StackKeyIs(va: nat)
    requires va < USER_TOP
    ensures StackKey(Vpn(va), USER_STACK_PAGES) <==> OnStack(va)
    ensures OnStack(va) ==> Vpn(va) == Vpn(StackPage((va - StackPage(0)) / 4096))
  {
    hide Vpn;
    if OnStack(va) {
      var j: nat := (va - StackPage(0)) / 4096;
      assert j < USER_STACK_PAGES && va / 4096 == StackPage(j) / 4096;
      VpnSeparates(va, StackPage(j));
    } else {
      forall j: nat | j < USER_STACK_PAGES ensures Vpn(va) != Vpn(StackPage(j)) { VpnSeparates(va, StackPage(j)); }
    }
  }

  lemma SeesItsPages(m: Memory, sp: Space, s: Space, pages: seq<(nat, Prot)>, fs: seq<nat>, first: nat, va: nat)
    requires Holds(m, s) && FlatIs(sp.flat, pages, fs) && s.flat == Overlay(sp.flat, first, USER_STACK_PAGES)
    requires Separate(pages) && va < USER_TOP
    ensures Visible(m, s.root, pages, fs, first, va)
  {
    hide Vpn, Holds, Walk, Overlay, StackPage;
    WalkIsFlat(m, s, va);
    OverlayIs(sp.flat, first, USER_STACK_PAGES);
    StackKeyIs(va);
    var k := Vpn(va);
    if !OnStack(va) {
      forall i: nat | i < |pages| ensures k == Vpn(pages[i].0) <==> PageOf(pages, i, va) {
        VpnSeparates(pages[i].0, va);
      }
      forall i: nat | PageOf(pages, i, va) ensures MapsTo(sp.flat, k, fs[i], pages[i].1) {
        assert MapsTo(sp.flat, Vpn(pages[i].0), fs[i], pages[i].1);
      }
    } else {
      StackIndex(va);
    }
  }

  lemma StackIndex(va: nat)
    requires OnStack(va)
    ensures 0 <= (va - StackPage(0)) / 4096 < USER_STACK_PAGES
  {
  }

  /** Where the stack is, and that user mode may read and write it but not run
      it. */
  lemma StackSeen(m: Memory, root: nat, pages: seq<(nat, Prot)>, fs: seq<nat>, first: nat, va: nat)
    requires |fs| == |pages| && Visible(m, root, pages, fs, first, va) && 0x30_0000 <= va < 0x30_4000
    ensures var w := Walk(m, root, va);
            && w.Page? && w.level == 0 && w.pte.ppn == first + (va - 0x30_0000) / 4096
            && UserMay(w.pte, Reading) && UserMay(w.pte, Writing) && !UserMay(w.pte, Running)
  {
    hide Walk;
    assert OnStack(va) && StackPage(0) == 0x30_0000;
  }

  // ---- spawning ----------------------------------------------------------------------------------

  /** From the user stack on: map it, take a kernel stack, or unwind. */
  method FinishSpawn(vm: Sv39, ghost good: bool, ghost p0: Pool, ghost p: Pool, ghost sp: Space, root: nat, first: nat)
    returns (r: Outcome, ghost s: Space)
    requires vm.Valid()
    requires good ==> vm.Has(sp) && sp.root == root && Apart(vm.fa.State(), vm.mem, sp, vm.kernelRoot)
    requires good ==>
               p0.Sound() && Built(p0, p, sp) && Private(sp) && Took(p, vm.fa.State(), Block(first, USER_STACK_PAGES))
    modifies vm`mem, vm.fa.Repr()
    ensures vm.Valid()
    ensures r.Panicked? || r.NoKernelStack? || r.Spawned?
    ensures (r.Spawned? ==> r.root == root) && (r.Panicked? ==> vm.fa.State().free == {})
    ensures good && r.NoKernelStack? ==>
              NoStack(p0, vm.fa.State(), s.Frames() + Displaced(sp.flat, USER_STACK_PAGES))
    ensures good && r.NoKernelStack? ==> Took(p0, vm.fa.State(), Displaced(sp.flat, USER_STACK_PAGES))
    ensures good && r.Spawned? ==>
              && Holds(vm.mem, s) && s.root == root && Apart(vm.fa.State(), vm.mem, s, vm.kernelRoot)
              && s.flat == Overlay(sp.flat, first, USER_STACK_PAGES) && Undisturbed(sp, s, first, r.stack)
              && Took(p0, vm.fa.State(),
                      s.Frames() + Displaced(sp.flat, USER_STACK_PAGES) + Block(r.stack, STACK_PAGES))
  {
    hide Holds, Apart, Private, Displaced, Overlay, Took, Undisturbed, NoStack, NoRunOnASide;
    ghost var lost, b, p1 := Displaced(sp.flat, USER_STACK_PAGES), Block(first, USER_STACK_PAGES), vm.fa.State();
    var ok;
    ok, s := MapStack(vm, good, sp, root, first);
    if !ok { return Panicked, s; }
    ghost var p2 := vm.fa.State();
    if good { StackAccounted(p0, p, p1, p2, vm.mem, sp, s, first, vm.kernelRoot); }
    var kstack := TakeBlock(vm, STACK_PAGES);
    if kstack.None? {
      if good {
        NoStackLeft(p0, p2, s.Frames() + lost);
        UnwindGivesBack(p0, p2, vm.mem, s, lost, b);
      }
      vm.FreeBlock(first, USER_STACK_PAGES);
      vm.FreeUserRoot(root);
      if good { NoStackStays(p0, p2, vm.fa.State(), s.Frames() + lost); }
      return NoKernelStack, s;
    }
    if good {
      TookTwice(p0, p2, vm.fa.State(), s.Frames() + lost, Block(kstack.value, STACK_PAGES));
      TakeApart(p2, vm.fa.State(), vm.mem, s, Block(kstack.value, STACK_PAGES), vm.kernelRoot);
      StaysUndisturbed(p0, p, p1, p2, vm.fa.State(), vm.mem, sp, s, first, kstack.value, vm.kernelRoot);
    }
    return Spawned(root, kstack.value), s;
  }

  lemma TakeApart(p: Pool, p': Pool, m: Memory, sp: Space, b: set<nat>, kernelRoot: nat)
    requires Apart(p, m, sp, kernelRoot) && Took(p, p', b)
    ensures Apart(p', m, sp, kernelRoot)
  {
    TakeStaysApart(p, p', m, sp, kernelRoot);
  }

  /** With the frames `taken` out of `p0`, no four frames in a row are left on
      either side of the cursor. */
  ghost predicate NoStack(p0: Pool, p: Pool, taken: set<nat>) {
    NoRunOnASide(Pool(p0.free - taken, p0.owned + taken, p.next), 4)
  }

  lemma BuiltTook(p0: Pool, p: Pool, sp: Space)
    requires Built(p0, p, sp)
    ensures Took(p0, p, sp.Frames())
  {
  }

  lemma NoStackLeft(p0: Pool, p: Pool, taken: set<nat>)
    requires Took(p0, p, taken) && NoRunOnASide(p, 4)
    ensures NoStack(p0, p, taken)
  {
  }

  /** Giving frames back does not move the cursor. */
  lemma NoStackStays(p0: Pool, p: Pool, q: Pool, taken: set<nat>)
    requires NoStack(p0, p, taken) && q.next == p.next
    ensures NoStack(p0, q, taken)
  {
  }

  /** Both bitmaps are as they were. */
  ghost predicate Restored(p0: Pool, p: Pool) { p.free == p0.free && p.owned == p0.owned }

  lemma LossIsNoRestore(p0: Pool, p: Pool, lost: set<nat>)
    requires Took(p0, p, lost)
    ensures Restored(p0, p) <==> lost == {}
  {
    if lost == {} { assert p0.free - {} == p0.free && p0.owned + {} == p0.owned; }
    if f :| f in lost { assert f in p0.free && f !in p.free; }
  }

  /** A load that took a root and failed has not given it back. */
  lemma FailedLoadKeeps(p0: Pool, p: Pool, sp: Space)
    requires Built(p0, p, sp)
    ensures !Restored(p0, p)
  {
    assert sp.root in sp.Frames();
    assert sp.root in p0.free && sp.root !in p.free;
  }

  /** The tree at the end, the frames of the image's pages, those the stack
      displaced, and where the stack's own begin. */
  datatype Trace = Trace(sp: Space, frames: seq<nat>, lost: set<nat>, first: nat)

  /** Each page of the image has a frame of its own, which is no table and no
      frame of a stack. */
  ghost predicate Exclusive(t: Trace, stack: nat) {
    && (forall i, j | 0 <= i < j < |t.frames| :: t.frames[i] != t.frames[j])
    && (forall f | f in t.frames ::
          f !in t.sp.Tables() && f !in Block(t.first, USER_STACK_PAGES) && f !in Block(stack, STACK_PAGES))
  }

  /** No frame of `sp` has been taken for a table or for a stack since. */
  ghost predicate Undisturbed(sp: Space, s: Space, first: nat, stack: nat) {
    && sp.Leaves() !! s.Tables()
    && sp.Leaves() !! Block(first, USER_STACK_PAGES) && sp.Leaves() !! Block(stack, STACK_PAGES)
  }

  lemma StaysUndisturbed(p0: Pool, p: Pool, p1: Pool, p2: Pool, p3: Pool, m: Memory, sp: Space, s: Space, first: nat,
                         stack: nat, kernelRoot: nat)
    requires Built(p0, p, sp) && Private(sp) && Took(p, p1, Block(first, USER_STACK_PAGES))
    requires Stacked(p1, p2, m, sp, s, first, USER_STACK_PAGES, kernelRoot) && Took(p2, p3, Block(stack, STACK_PAGES))
    ensures Undisturbed(sp, s, first, stack)
  {
    hide Overlay, Apart;
    PrivateApart(sp);
    assert sp.Leaves() <= sp.Frames() && sp.Leaves() !! p.free;
    assert s.Tables() <= sp.Tables() + p1.free;
  }

  lemma FramesExclusive(sp: Space, pages: seq<(nat, Prot)>, t: Trace, stack: nat)
    requires FlatIs(sp.flat, pages, t.frames) && Separate(pages) && Private(sp) && Undisturbed(sp, t.sp, t.first, stack)
    ensures Exclusive(t, stack)
  {
    hide Vpn;
    forall i | 0 <= i < |pages| ensures t.frames[i] in sp.Leaves() && sp.flat[Vpn(pages[i].0)].ppn == t.frames[i] {
      assert MapsTo(sp.flat, Vpn(pages[i].0), t.frames[i], pages[i].1);
      LeafOf(sp, Vpn(pages[i].0));
    }
  }

  /** What has become of the allocator and of memory, case by case. */
  ghost predicate Accounted(p0: Pool, p: Pool, m: Memory, kernelRoot: nat, image: Image, r: Outcome, t: Trace) {
    match r
    case Panicked => true
    case NoUserStack => Restored(p0, p)
    case NoKernelStack => Took(p0, p, t.lost) && (Restored(p0, p) <==> ClearOfStack(PagesOf(image)))
    case LoadFailed => (Restored(p0, p) <==> image.BadHeader?) && (!image.BadHeader? ==> Built(p0, p, t.sp))
    case Spawned(root, stack) =>
      && image.Pages? && Took(p0, p, t.sp.Frames() + t.lost + Block(stack, STACK_PAGES))
      && (t.lost == {} <==> ClearOfStack(image.pages))
      && Holds(m, t.sp) && t.sp.root == root && Apart(p, m, t.sp, kernelRoot)
      && |t.frames| == |image.pages| && Exclusive(t, stack)
      && forall va: nat | va < USER_TOP :: Visible(m, root, image.pages, t.frames, t.first, va)
  }

  /** Why a spawn did not succeed: no frame was left, or no four in a row for a
      stack, or the file is bad. */
  ghost predicate Excused(p0: Pool, p: Pool, image: Image, r: Outcome, t: Trace) {
    match r
    case Panicked => p.free == {}
    case LoadFailed => !image.Pages? || p.free == {}
    case NoUserStack => NoStack(p0, p, t.sp.Frames())
    case NoKernelStack => NoStack(p0, p, t.sp.Frames() + t.lost)
    case Spawned(_, _) => image.Pages?
  }

  lemma StackExcused(p0: Pool, p: Pool, image: Image, r: Outcome, t: Trace)
    requires !r.LoadFailed? && image.Pages? && (r.Panicked? ==> p.free == {})
    requires r.NoUserStack? ==> NoStack(p0, p, t.sp.Frames())
    requires r.NoKernelStack? ==> NoStack(p0, p, t.sp.Frames() + t.lost)
    ensures Excused(p0, p, image, r, t)
  {
  }

  lemma UndoneExcused(p0: Pool, p: Pool, m: Memory, image: Image, sp: Space, t: Trace)
    requires t.sp == sp && NoStack(p0, p, sp.Frames()) && image.Pages?
    ensures Excused(p0, Released(p, MetInRoot(m, sp.root, 256) + {sp.root}), image, NoUserStack, t)
  {
    hide NoStack;
    NoStackStays(p0, p, Released(p, MetInRoot(m, sp.root, 256) + {sp.root}), sp.Frames());
  }

  /** From a loaded image on. */
  method SpawnLoaded(vm: Sv39, ghost good: bool, ghost p0: Pool, ghost sp: Space, ghost fs: seq<nat>, image: Image,
                     root: nat)
    returns (r: Outcome, ghost t: Trace)
    requires vm.Valid() && image.Pages?
    requires good ==> Separate(image.pages) && p0.Sound() && OnCourse(vm, p0, sp, image.pages, fs, root)
    modifies vm`mem, vm.fa.Repr()
    ensures vm.Valid() && (good ==> Accounted(p0, vm.fa.State(), vm.mem, vm.kernelRoot, image, r, t))
    ensures (good ==> Excused(p0, vm.fa.State(), image, r, t)) && (r.Panicked? ==> vm.fa.State().free == {})
    ensures !r.LoadFailed?
  {
    hide Excused, NoStack, NoRunOnASide;
    hide Holds, Took, Displaced, Overlay, FlatIs, Private, Apart, Accounted, Released, MetInRoot, Built, Undisturbed;
    ghost var p := vm.fa.State();
    t := Trace(sp, fs, {}, 0);
    var ustack := TakeBlock(vm, USER_STACK_PAGES);
    if ustack.None? {
      if good {
        BuiltTook(p0, p, sp);
        NoStackLeft(p0, p, sp.Frames());
        LoadedUndone(p0, p, vm.mem, vm.kernelRoot, image, sp, t);
        UndoneExcused(p0, p, vm.mem, image, sp, t);
      }
      vm.FreeUserRoot(root);
      return NoUserStack, t;
    }
    ghost var first, lost := ustack.value, Displaced(sp.flat, USER_STACK_PAGES);
    if good { TakeApart(p, vm.fa.State(), vm.mem, sp, Block(first, USER_STACK_PAGES), vm.kernelRoot); }
    ghost var s;
    r, s := FinishSpawn(vm, good, p0, p, sp, root, ustack.value);
    t := Trace(s, fs, lost, first);
    if good { StackExcused(p0, vm.fa.State(), image, r, t); }
    if r.Panicked? { PanicAccounted(p0, vm.fa.State(), vm.mem, vm.kernelRoot, image, t); }
    if good && r.NoKernelStack? { StackLost(p0, vm.fa.State(), vm.mem, vm.kernelRoot, image, sp, t); }
    if good && r.Spawned? { SpawnSeen(p0, vm.fa.State(), vm.mem, vm.kernelRoot, image, r, sp, t); }
  }

  /** Spawn a task. If the image's pages are below the user top, none twice:
      when the user stack cannot be had, both allocator bitmaps end up as they
      were. When the kernel stack cannot be had, the user stack, which is freed
      once by hand and met again in the tree, is given back exactly once, and
      all that stays taken is the frames of image pages the stack was mapped
      over. A failed load is restored exactly if the header was at fault. The
      new task sees its image and its stack and nothing else, and the kernel
      half is the kernel's. It fails only for want of frames or for a bad file. */
  method SpawnUser(vm: Sv39, image: Image) returns (r: Outcome, ghost t: Trace)
    requires vm.Valid() && vm.kernelRoot !in vm.fa.State().free
    modifies vm`mem, vm.fa.Repr()
    ensures vm.Valid()
    ensures Separate(PagesOf(image)) ==>
              && Accounted(old(vm.fa.State()), vm.fa.State(), vm.mem, vm.kernelRoot, image, r, t)
              && Excused(old(vm.fa.State()), vm.fa.State(), image, r, t)
    ensures (r.Panicked? ==> vm.fa.State().free == {}) && (r.LoadFailed? && image.Pages? ==> vm.fa.State().free == {})
  {
    hide Accounted, Separate, Progress, Built, Holds;
    ghost var p0, good := vm.fa.State(), Separate(PagesOf(image));
    ghost var sp, fs;
    var loaded, root;
    loaded, root, sp, fs := Load(vm, image);
    t := Trace(sp, fs, {}, 0);
    if loaded.Loaded? {
      r, t := SpawnLoaded(vm, good, p0, sp, fs, image, root);
      return;
    }
    r := if loaded.NoTable? then Panicked else LoadFailed;
    if loaded.NoTable? {
      PanicAccounted(p0, vm.fa.State(), vm.mem, vm.kernelRoot, image, t);
    } else if good {
      if loaded.Rejected? { ProgressIsBuilt(p0, vm.fa.State(), vm.mem, sp, PagesOf(image), fs, vm.kernelRoot); }
      LoadUnaccounted(p0, vm.fa.State(), vm.mem, vm.kernelRoot, image, t);
    }
  }

  lemma PanicAccounted(p0: Pool, p: Pool, m: Memory, kernelRoot: nat, image: Image, t: Trace)
    ensures Accounted(p0, p, m, kernelRoot, image, Panicked, t)
  {
  }

  lemma LoadUnaccounted(p0: Pool, p: Pool, m: Memory, kernelRoot: nat, image: Image, t: Trace)
    requires if image.BadHeader? then p == p0 else Built(p0, p, t.sp)
    ensures Accounted(p0, p, m, kernelRoot, image, LoadFailed, t)
  {
    if !image.BadHeader? { FailedLoadKeeps(p0, p, t.sp); }
  }

  lemma LoadedUndone(p0: Pool, p: Pool, m: Memory, kernelRoot: nat, image: Image, sp: Space, t: Trace)
    requires p0.Sound() && Built(p0, p, sp) && Holds(m, sp)
    ensures Accounted(p0, Released(p, MetInRoot(m, sp.root, 256) + {sp.root}), m, kernelRoot, image, NoUserStack, t)
  {
    TeardownRestores(p0, p, m, sp);
  }

  lemma StackLost(p0: Pool, p: Pool, m: Memory, kernelRoot: nat, image: Image, sp: Space, t: Trace)
    requires image.Pages? && FlatIs(sp.flat, image.pages, t.frames)
    requires t.lost == Displaced(sp.flat, USER_STACK_PAGES) && Took(p0, p, t.lost)
    ensures Accounted(p0, p, m, kernelRoot, image, NoKernelStack, t)
  {
    hide FlatIs, Displaced, ClearOfStack, Restored, Took;
    NothingDisplaced(sp.flat, image.pages, t.frames);
    LossIsNoRestore(p0, p, t.lost);
  }

  lemma SpawnSeen(p0: Pool, p: Pool, m: Memory, kernelRoot: nat, image: Image, r: Outcome, sp: Space, t: Trace)
    requires image.Pages? && FlatIs(sp.flat, image.pages, t.frames) && Separate(image.pages) && r.Spawned?
    requires t.lost == Displaced(sp.flat, USER_STACK_PAGES)
    requires t.sp.flat == Overlay(sp.flat, t.first, USER_STACK_PAGES)
    requires Holds(m, t.sp) && t.sp.root == r.root && Apart(p, m, t.sp, kernelRoot)
    requires Took(p0, p, t.sp.Frames() + t.lost + Block(r.stack, STACK_PAGES))
    requires Private(sp) && Undisturbed(sp, t.sp, t.first, r.stack)
    ensures Accounted(p0, p, m, kernelRoot, image, r, t)
  {
    hide Holds, Took, Displaced, Exclusive, Private, Undisturbed, ClearOfStack, Overlay, Visible, Apart, Separate, Vpn;
    NothingDisplaced(sp.flat, image.pages, t.frames);
    FramesExclusive(sp, image.pages, t, r.stack);
    forall va: nat | va < USER_TOP ensures Visible(m, r.root, image.pages, t.frames, t.first, va) {
      SeesItsPages(m, sp, t.sp, image.pages, t.frames, t.first, va);
    }
  }

  /** An image with a page at the bottom of the stack is as good as any other,
      and its frame is displaced. */
  lemma StackOverImage(prot: Prot, f: nat)
    ensures var pages := [(0x300000, prot)]; Separate(pages) && !ClearOfStack(pages)
    ensures Displaced(map[Vpn(0x300000) := LeafEntry(f, prot)], USER_STACK_PAGES) == {f}
  {
    hide Vpn;
    var pages := [(0x300000, prot)];
    var k := Vpn(0x300000);
    assert StackPage(0) == 0x300000;
    assert Vpn(pages[0].0) == Vpn(StackPage(0));
    assert StackKey(k, USER_STACK_PAGES);
    var flat := map[k := LeafEntry(f, prot)];
    assert flat[k].ppn == f;
    assert f in Displaced(flat, USER_STACK_PAGES);
  }
}
