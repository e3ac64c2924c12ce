/** Sv39 user page tables: a three-level tree in physical memory that stands
    for a flat map from pages to entries. */
module Paging {
  import opened Wrappers
  import opened Bitmaps
  import opened FrameAllocator

  datatype Prot = Ro | Rw | Rx | Rwx {
    predicate Write() { Rw? || Rwx? }

    predicate Exec() { Rx? || Rwx? }
  }

  // ---- entries ---------------------------------------------------------------

  /** A page-table word, field by field. */
  datatype Pte = Pte(ppn: nat, v: bool, r: bool, w: bool, x: bool, u: bool, g: bool, a: bool, d: bool)

  const ZERO := Pte(0, false, false, false, false, false, false, false, false)

  /** `((f >> 12) << 10) | PTE_V` for the frame at address f. */
  function TableEntry(f: nat): (e: Pte) { Pte(f, true, false, false, false, false, false, false, false) }

  /** `((pa >> 12) << 10) | flags` with V, R, U, A, D and the rights asked for. */
  function LeafEntry(f: nat, prot: Prot): (e: Pte) {
    Pte(f, true, true, prot.Write(), prot.Exec(), true, false, true, true)
  }

  // ---- the hardware walk -------------------------------------------------------

  type Memory = map<nat, seq<Pte>>

  function Entry(mem: Memory, f: nat, i: nat): (e: Pte) { if f in mem && i < |mem[f]| then mem[f][i] else ZERO }

  datatype Walked = Fault | Page(level: nat, pte: Pte)

  /** Section 4.3.2 of the RISC-V Privileged Architecture: V=0 or W without R
      faults; R or X makes a leaf; otherwise go down one level. */
  predicate Usable(e: Pte) { e.v && (e.r || !e.w) }

  predicate IsLeaf(e: Pte) { e.r || e.x }

  /** The word of an entry: the flags from bit 0 up in the order V, R, W, X, U, G,
      A, D, and the frame number from bit 10. */
  function PteWord(e: Pte): (n: nat) {
    e.ppn * 1024 + Bit(e.v, 1) + Bit(e.r, 2) + Bit(e.w, 4) + Bit(e.x, 8) + Bit(e.u, 16) + Bit(e.g, 32)
    + Bit(e.a, 64) + Bit(e.d, 128)
  }

  function Bit(b: bool, n: nat): (r: nat) { if b then n else 0 }

  /** The words written: V alone for a table; V, R, U, A and D for a page, with W
      and X as asked. */
  lemma WordsWritten(f: nat, prot: Prot)
    ensures PteWord(TableEntry(f)) == f * 1024 + 1
    ensures PteWord(LeafEntry(f, prot)) ==
              f * 1024 + (match prot case Ro => 0xD3 case Rw => 0xD7 case Rx => 0xDB case Rwx => 0xDF)
  {
  }

  datatype Access = Reading | Writing | Running

  /** Section 4.3.2 of the RISC-V Privileged Architecture: user mode needs U, and
      the right itself; A must be set, and D for a write. */
  predicate UserMay(e: Pte, access: Access) {
    && Usable(e) && e.u && e.a
    && match access
       case Reading => e.r
       case Writing => e.w && e.d
       case Running => e.x
  }

  /** What user mode may do with a page: always read it, and what was asked. A
      table entry is no page. */
  lemma UserRights(f: nat, prot: Prot)
    ensures Usable(TableEntry(f)) && !IsLeaf(TableEntry(f)) && IsLeaf(LeafEntry(f, prot))
    ensures UserMay(LeafEntry(f, prot), Reading)
    ensures UserMay(LeafEntry(f, prot), Writing) <==> prot == Rw || prot == Rwx
    ensures UserMay(LeafEntry(f, prot), Running) <==> prot == Rx || prot == Rwx
  {
  }

  /** The three indices of a virtual address. */
  function Vpn(va: nat): (k: (nat, nat, nat))
    ensures k.0 < 512 && k.1 < 512 && k.2 < 512
  {
    (va / 0x4000_0000 % 512, va / 0x20_0000 % 512, va / 4096 % 512)
  }

  function Walk(mem: Memory, root: nat, va: nat): (w: Walked) {
    var k := Vpn(va);
    var e2 := Entry(mem, root, k.0);
    if !Usable(e2) then Fault
    else if IsLeaf(e2) then Page(2, e2)
    else
      var e1 := Entry(mem, e2.ppn, k.1);
      if !Usable(e1) then Fault
      else if IsLeaf(e1) then Page(1, e1)
      else
        var e0 := Entry(mem, e1.ppn, k.2);
        if Usable(e0) && IsLeaf(e0) then Page(0, e0) else Fault
  }

  // ---- what a tree stands for ----------------------------------------------------

  const USER_TOP := 0x40_0000_0000

  /** A user half: its table frames and the flat map its leaves make. */
  datatype Space = Space(root: nat, pds: map<nat, nat>, pts: map<(nat, nat), nat>, flat: map<(nat, nat, nat), Pte>) {
    ghost function Tables(): (s: set<nat>) { {root} + pds.Values + pts.Values }

    ghost function Leaves(): (s: set<nat>) { set e | e in flat.Values :: e.ppn }

    ghost function Frames(): (s: set<nat>) { Tables() + Leaves() }

    /** No frame serves twice as a table. */
    ghost predicate Distinct() {
      && root !in pds.Values && root !in pts.Values && pds.Values !! pts.Values
      && (forall i, j | i in pds && j in pds && pds[i] == pds[j] :: i == j)
      && (forall i, j | i in pts && j in pts && pts[i] == pts[j] :: i == j)
    }

    ghost predicate InRange() {
      && (forall i | i in pds :: i < 256)
      && (forall k | k in pts :: k.0 in pds && k.1 < 512)
      && (forall k | k in flat :: (k.0, k.1) in pts && k.2 < 512 && Usable(flat[k]) && IsLeaf(flat[k]))
    }

    function RootEntry(i2: nat): (e: Pte) { if i2 in pds then TableEntry(pds[i2]) else ZERO }

    function PdEntry(i2: nat, i1: nat): (e: Pte) { if (i2, i1) in pts then TableEntry(pts[(i2, i1)]) else ZERO }

    function PtEntry(i2: nat, i1: nat, i0: nat): (e: Pte) { if (i2, i1, i0) in flat then flat[(i2, i1, i0)] else ZERO }
  }

  ghost predicate Tabled(mem: Memory, f: nat) { f in mem && |mem[f]| == 512 }

  /** Memory holds the tree of `sp`. */
  ghost predicate Holds(mem: Memory, sp: Space) {
    && sp.Distinct() && sp.InRange()
    && (forall f | f in sp.Tables() :: Tabled(mem, f))
    && (forall i2: nat | i2 < 256 :: Entry(mem, sp.root, i2) == sp.RootEntry(i2))
    && (forall i2: nat, i1: nat | i2 in sp.pds && i1 < 512 :: Entry(mem, sp.pds[i2], i1) == sp.PdEntry(i2, i1))
    && (forall i2: nat, i1: nat, i0: nat | (i2, i1) in sp.pts && i0 < 512 ::
          Entry(mem, sp.pts[(i2, i1)], i0) == sp.PtEntry(i2, i1, i0))
  }

  /** For user addresses the hardware walk finds exactly the flat map. */
  lemma WalkIsFlat(mem: Memory, sp: Space, va: nat)
    requires Holds(mem, sp) && va < USER_TOP
    ensures Walk(mem, sp.root, va) == if Vpn(va) in sp.flat then Page(0, sp.flat[Vpn(va)]) else Fault
  {
    var k := Vpn(va);
    assert k.0 < 256;
    if k.0 in sp.pds {
      assert Entry(mem, sp.root, k.0) == TableEntry(sp.pds[k.0]);
      assert Entry(mem, sp.pds[k.0], k.1) == sp.PdEntry(k.0, k.1);
      if (k.0, k.1) in sp.pts {
        assert Entry(mem, sp.pts[(k.0, k.1)], k.2) == sp.PtEntry(k.0, k.1, k.2);
      }
    }
  }

  /** Below the user top, equal indices mean the same page. */
  lemma VpnSeparates(va: nat, vb: nat)
    requires va < USER_TOP && vb < USER_TOP
    ensures Vpn(va) == Vpn(vb) <==> va / 4096 == vb / 4096
  {
    VpnRebuilds(va);
    VpnRebuilds(vb);
  }

  lemma VpnRebuilds(va: nat)
    requires va < USER_TOP
    ensures va / 4096 == Vpn(va).0 * 262144 + Vpn(va).1 * 512 + Vpn(va).2
  {
    var p := va / 4096;
    assert va / 0x20_0000 == p / 512;
    assert va / 0x4000_0000 == p / 512 / 512;
  }

  // ---- updates of the tree ---------------------------------------------------------

  /** A cleared table. */
  function Cleared(): (z: seq<Pte>)
    ensures |z| == 512 && forall k | 0 <= k < 512 :: z[k] == ZERO
  {
    seq(512, _ => ZERO)
  }

  function Put(mem: Memory, f: nat, i: nat, e: Pte): (m: Memory) {
    if f in mem && i < |mem[f]| then mem[f := mem[f][i := e]] else mem
  }

  lemma ValuesGrow<K, V>(m: map<K, V>, k: K, v: V)
    requires k !in m
    ensures m[k := v].Values == m.Values + {v}
  {
    assert m[k := v][k] == v;
    forall x | x in m.Values ensures x in m[k := v].Values {
      var j :| j in m && m[j] == x;
      assert m[k := v][j] == x;
    }
  }

  /** Hanging a fresh zeroed frame below the root. */
  lemma AddPd(mem: Memory, sp: Space, i2: nat, f: nat)
    requires Holds(mem, sp) && i2 < 256 && i2 !in sp.pds && f !in sp.Tables()
    ensures Holds(Put(mem[f := Cleared()], sp.root, i2, TableEntry(f)), sp.(pds := sp.pds[i2 := f]))
  {
    var m := Put(mem[f := Cleared()], sp.root, i2, TableEntry(f));
    var s := sp.(pds := sp.pds[i2 := f]);
    ValuesGrow(sp.pds, i2, f);
    forall a: nat | a < 256
      ensures Entry(m, s.root, a) == s.RootEntry(a)
    {
      assert Entry(mem, sp.root, a) == sp.RootEntry(a);
    }
    forall a: nat, b: nat | a in s.pds && b < 512
      ensures Entry(m, s.pds[a], b) == s.PdEntry(a, b)
    {
      if a != i2 { assert Entry(mem, sp.pds[a], b) == sp.PdEntry(a, b); }
    }
    forall a: nat, b: nat, c: nat | (a, b) in s.pts && c < 512
      ensures Entry(m, s.pts[(a, b)], c) == s.PtEntry(a, b, c)
    {
      assert s.pts[(a, b)] in sp.pts.Values;
      assert Entry(mem, sp.pts[(a, b)], c) == sp.PtEntry(a, b, c);
    }
  }

  /** Hanging a fresh zeroed frame below a second-level table. */
  lemma AddPt(mem: Memory, sp: Space, i2: nat, i1: nat, f: nat)
    requires Holds(mem, sp) && i2 in sp.pds && i1 < 512 && (i2, i1) !in sp.pts && f !in sp.Tables()
    ensures Holds(Put(mem[f := Cleared()], sp.pds[i2], i1, TableEntry(f)), sp.(pts := sp.pts[(i2, i1) := f]))
  {
    var pd := sp.pds[i2];
    assert pd in sp.pds.Values && Tabled(mem, pd);
    var m := Put(mem[f := Cleared()], pd, i1, TableEntry(f));
    var s := sp.(pts := sp.pts[(i2, i1) := f]);
    ValuesGrow(sp.pts, (i2, i1), f);
    forall g | g in s.Tables() ensures Tabled(m, g) {
      assert g == f || (g in sp.Tables() && Tabled(mem, g));
    }
    forall a: nat | a < 256
      ensures Entry(m, s.root, a) == s.RootEntry(a)
    {
      assert Entry(mem, sp.root, a) == sp.RootEntry(a);
    }
    forall a: nat, b: nat | a in s.pds && b < 512
      ensures Entry(m, s.pds[a], b) == s.PdEntry(a, b)
    {
      assert sp.pds[a] in sp.pds.Values;
      assert Entry(mem, sp.pds[a], b) == sp.PdEntry(a, b);
    }
    forall a: nat, b: nat, c: nat | (a, b) in s.pts && c < 512
      ensures Entry(m, s.pts[(a, b)], c) == s.PtEntry(a, b, c)
    {
      if (a, b) != (i2, i1) {
        assert sp.pts[(a, b)] in sp.pts.Values;
        assert Entry(mem, sp.pts[(a, b)], c) == sp.PtEntry(a, b, c);
      }
    }
  }

  /** Writing a leaf is updating the flat map. */
  lemma SetLeaf(mem: Memory, sp: Space, k: (nat, nat, nat), e: Pte)
    requires Holds(mem, sp) && (k.0, k.1) in sp.pts && k.2 < 512 && Usable(e) && IsLeaf(e)
    ensures Holds(Put(mem, sp.pts[(k.0, k.1)], k.2, e), sp.(flat := sp.flat[k := e]))
  {
    var pt := sp.pts[(k.0, k.1)];
    assert pt in sp.pts.Values && Tabled(mem, pt);
    var m := Put(mem, pt, k.2, e);
    var s := sp.(flat := sp.flat[k := e]);
    assert s.Distinct() && s.InRange();
    forall f | f in s.Tables() ensures Tabled(m, f) {
      assert f in sp.Tables() && Tabled(mem, f);
    }
    forall a: nat | a < 256
      ensures Entry(m, s.root, a) == s.RootEntry(a)
    {
      assert Entry(mem, sp.root, a) == sp.RootEntry(a);
    }
    forall a: nat, b: nat | a in s.pds && b < 512
      ensures Entry(m, s.pds[a], b) == s.PdEntry(a, b)
    {
      assert sp.pds[a] in sp.pds.Values;
      assert Entry(mem, sp.pds[a], b) == sp.PdEntry(a, b);
    }
    forall a: nat, b: nat, c: nat | (a, b) in s.pts && c < 512
      ensures Entry(m, s.pts[(a, b)], c) == s.PtEntry(a, b, c)
    {
      assert sp.pts[(a, b)] in sp.pts.Values;
      assert Entry(mem, sp.pts[(a, b)], c) == sp.PtEntry(a, b, c);
    }
  }

  // ---- what tearing down gives back ---------------------------------------------------

  /** Freeing every frame of `g`; those not owned are left alone. */
  ghost function Released(s: Pool, g: set<nat>): (r: Pool) { Pool(s.free + g * s.owned, s.owned - g, s.next) }

  lemma ReleasedTwice(s: Pool, g: set<nat>, h: set<nat>)
    ensures Released(Released(s, g), h) == Released(s, g + h)
  {
    assert s.free + g * s.owned + h * (s.owned - g) == s.free + (g + h) * s.owned;
    assert s.owned - g - h == s.owned - (g + h);
  }

  lemma ReleasedNothing(s: Pool)
    ensures Released(s, {}) == s
  {
    assert s.free + {} * s.owned == s.free && s.owned - {} == s.owned;
  }

  ghost function Single(first: nat, i: nat): (s: set<nat>) { {first + i} }

  ghost function RunOf(first: nat, n: nat): (s: set<nat>) {
    if n == 0 then {} else RunOf(first, n - 1) + Single(first, n - 1)
  }

  lemma {:induction false} RunIsBlock(first: nat, n: nat)
    ensures RunOf(first, n) == Block(first, n)
  {
    if n > 0 { RunIsBlock(first, n - 1); }
  }

  lemma FreeIsRelease(s: Pool, s': Pool, f: nat)
    requires FreeStep(s, s', f * FRAME_SIZE)
    ensures s' == Released(s, {f})
  {
    assert f * FRAME_SIZE / FRAME_SIZE == f;
    if f in s.owned {
      assert {f} * s.owned == {f};
    } else {
      assert {f} * s.owned == {} && s.owned - {f} == s.owned && s.free + {} == s.free;
    }
  }

  /** The frames met when walking the first `n` entries of a table. */
  ghost function MetInPt(mem: Memory, pt: nat, n: nat): (s: set<nat>) {
    if n == 0 then {} else
    MetInPt(mem, pt, n - 1) + MetAtPt(Entry(mem, pt, n - 1))
  }

  ghost function MetAtPt(e: Pte): (s: set<nat>) { if e.v then {e.ppn} else {} }

  ghost function MetAtPd(mem: Memory, e: Pte): (s: set<nat>) {
    if !e.v then {} else if IsLeaf(e) then {e.ppn} else MetInPt(mem, e.ppn, 512) + {e.ppn}
  }

  ghost function MetInPd(mem: Memory, pd: nat, n: nat): (s: set<nat>) {
    if n == 0 then {} else MetInPd(mem, pd, n - 1) + MetAtPd(mem, Entry(mem, pd, n - 1))
  }

  ghost function MetAtRoot(mem: Memory, e: Pte): (s: set<nat>) {
    if e.v then MetInPd(mem, e.ppn, 512) + {e.ppn} else {}
  }

  ghost function MetInRoot(mem: Memory, root: nat, n: nat): (s: set<nat>) {
    if n == 0 then {} else MetInRoot(mem, root, n - 1) + MetAtRoot(mem, Entry(mem, root, n - 1))
  }

  ghost function LeavesAt(sp: Space, k: (nat, nat), n: nat): (s: set<nat>) {
    set j | j in sp.flat && (j.0, j.1) == k && j.2 < n :: sp.flat[j].ppn
  }

  lemma {:induction false} InPt(mem: Memory, sp: Space, k: (nat, nat), n: nat)
    requires Holds(mem, sp) && k in sp.pts && n <= 512
    ensures MetInPt(mem, sp.pts[k], n) == LeavesAt(sp, k, n)
  {
    if n > 0 {
      InPt(mem, sp, k, n - 1);
      assert Entry(mem, sp.pts[k], n - 1) == sp.PtEntry(k.0, k.1, n - 1);
    }
  }

  ghost function PtsIn(sp: Space, i2: nat, n: nat): (s: set<nat>) {
    set k | k in sp.pts && k.0 == i2 && k.1 < n :: sp.pts[k]
  }

  ghost function LeavesIn(sp: Space, i2: nat, n: nat): (s: set<nat>) {
    set j | j in sp.flat && j.0 == i2 && j.1 < n :: sp.flat[j].ppn
  }

  lemma {:induction false} InPd(mem: Memory, sp: Space, i2: nat, n: nat)
    requires Holds(mem, sp) && i2 in sp.pds && n <= 512
    ensures MetInPd(mem, sp.pds[i2], n) == PtsIn(sp, i2, n) + LeavesIn(sp, i2, n)
  {
    if n > 0 {
      InPd(mem, sp, i2, n - 1);
      InStep(sp, i2, n - 1);
      MetPdEntry(mem, sp, i2, n - 1);
      Regroup(PtsIn(sp, i2, n - 1), LeavesIn(sp, i2, n - 1), LeavesAt(sp, (i2, n - 1), 512), PtAt(sp, i2, n - 1));
    }
  }

  ghost function PtAt(sp: Space, i2: nat, i1: nat): (s: set<nat>) {
    if (i2, i1) in sp.pts then {sp.pts[(i2, i1)]} else {}
  }

  lemma MetPdEntry(mem: Memory, sp: Space, i2: nat, i1: nat)
    requires Holds(mem, sp) && i2 in sp.pds && i1 < 512
    ensures MetInPd(mem, sp.pds[i2], i1 + 1) ==
              MetInPd(mem, sp.pds[i2], i1) + (LeavesAt(sp, (i2, i1), 512) + PtAt(sp, i2, i1))
  {
    assert Entry(mem, sp.pds[i2], i1) == sp.PdEntry(i2, i1);
    if (i2, i1) in sp.pts {
      InPt(mem, sp, (i2, i1), 512);
    } else {
      InStep(sp, i2, i1);
    }
  }

  lemma Regroup(p: set<nat>, l: set<nat>, a: set<nat>, x: set<nat>)
    ensures (p + l) + (a + x) == (p + x) + (l + a)
  {
  }

  lemma InStep(sp: Space, i2: nat, n: nat)
    requires sp.InRange() && n < 512
    ensures PtsIn(sp, i2, n + 1) == PtsIn(sp, i2, n) + PtAt(sp, i2, n)
    ensures LeavesIn(sp, i2, n + 1) == LeavesIn(sp, i2, n) + LeavesAt(sp, (i2, n), 512)
    ensures (i2, n) !in sp.pts ==> LeavesAt(sp, (i2, n), 512) == {}
  {
  }

  ghost function PdsBelow(sp: Space, n: nat): (s: set<nat>) { set i | i in sp.pds && i < n :: sp.pds[i] }

  ghost function PtsBelow(sp: Space, n: nat): (s: set<nat>) { set k | k in sp.pts && k.0 < n :: sp.pts[k] }

  ghost function LeavesBelow(sp: Space, n: nat): (s: set<nat>) { set j | j in sp.flat && j.0 < n :: sp.flat[j].ppn }

  lemma BelowStep(sp: Space, n: nat)
    requires sp.InRange()
    ensures PdsBelow(sp, n + 1) == PdsBelow(sp, n) + PdAt(sp, n)
    ensures PtsBelow(sp, n + 1) == PtsBelow(sp, n) + PtsIn(sp, n, 512)
    ensures LeavesBelow(sp, n + 1) == LeavesBelow(sp, n) + LeavesIn(sp, n, 512)
    ensures n !in sp.pds ==> PtsIn(sp, n, 512) == {} && LeavesIn(sp, n, 512) == {}
  {
  }

  lemma {:induction false} InRoot(mem: Memory, sp: Space, n: nat)
    requires Holds(mem, sp) && n <= 256
    ensures MetInRoot(mem, sp.root, n) == PdsBelow(sp, n) + PtsBelow(sp, n) + LeavesBelow(sp, n)
  {
    if n > 0 {
      InRoot(mem, sp, n - 1);
      BelowStep(sp, n - 1);
      MetRootEntry(mem, sp, n - 1);
      Regroup3(PdsBelow(sp, n - 1), PtsBelow(sp, n - 1), LeavesBelow(sp, n - 1),
               PdAt(sp, n - 1), PtsIn(sp, n - 1, 512), LeavesIn(sp, n - 1, 512));
    }
  }

  ghost function PdAt(sp: Space, i2: nat): (s: set<nat>) { if i2 in sp.pds then {sp.pds[i2]} else {} }

  lemma MetRootEntry(mem: Memory, sp: Space, i2: nat)
    requires Holds(mem, sp) && i2 < 256
    ensures MetInRoot(mem, sp.root, i2 + 1) ==
              MetInRoot(mem, sp.root, i2) + (PtsIn(sp, i2, 512) + LeavesIn(sp, i2, 512) + PdAt(sp, i2))
  {
    assert Entry(mem, sp.root, i2) == sp.RootEntry(i2);
    if i2 in sp.pds {
      InPd(mem, sp, i2, 512);
    } else {
      BelowStep(sp, i2);
    }
  }

  lemma Regroup3(p: set<nat>, q: set<nat>, l: set<nat>, x: set<nat>, y: set<nat>, z: set<nat>)
    ensures (p + q + l) + (y + z + x) == (p + x) + (q + y) + (l + z)
  {
  }

  /** Tearing a tree down meets exactly its own frames. */
  lemma MeetsItsFrames(mem: Memory, sp: Space)
    requires Holds(mem, sp)
    ensures MetInRoot(mem, sp.root, 256) + {sp.root} == sp.Frames()
  {
    InRoot(mem, sp, 256);
    assert PdsBelow(sp, 256) == sp.pds.Values;
    assert PtsBelow(sp, 256) == sp.pts.Values;
    assert LeavesBelow(sp, 256) == sp.Leaves();
  }

  // ---- how an update relates memory and allocator -----------------------------------------

  ghost predicate Same(m: Memory, m': Memory, f: nat) { (f in m <==> f in m') && (f in m ==> m'[f] == m[f]) }

  /** Nothing outside the tables of `sp` changed, nor the shared kernel half of
      its root. */
  ghost predicate Local(m: Memory, m': Memory, sp: Space) {
    && (forall f: nat | f !in sp.Tables() :: Same(m, m', f))
    && (forall i: nat | 256 <= i :: Entry(m', sp.root, i) == Entry(m, sp.root, i))
  }

  /** `sp'` has the tables of `sp` and perhaps more, taken from the free frames. */
  ghost predicate Grew(p: Pool, p': Pool, sp: Space, sp': Space) {
    var new' := sp'.Tables() - sp.Tables();
    && sp'.root == sp.root && sp.Tables() <= sp'.Tables() && new' <= p.free
    && p'.free == p.free - new' && p'.owned == p.owned + new'
  }

  lemma GrewTwice(p: Pool, q: Pool, r: Pool, a: Space, b: Space, c: Space)
    requires Grew(p, q, a, b) && Grew(q, r, b, c)
    ensures Grew(p, r, a, c)
  {
    var x, y := b.Tables() - a.Tables(), c.Tables() - b.Tables();
    assert c.Tables() - a.Tables() == x + y;
    assert p.free - x - y == p.free - (x + y);
    assert p.owned + x + y == p.owned + (x + y);
  }

  lemma LocalTwice(m: Memory, m': Memory, m'': Memory, a: Space, b: Space)
    requires Local(m, m', a) && Local(m', m'', b) && a.root == b.root && a.Tables() <= b.Tables()
    ensures Local(m, m'', b)
  {
    forall f: nat | f !in b.Tables() ensures Same(m, m'', f) {
      assert Same(m, m', f) && Same(m', m'', f);
    }
    forall i: nat | 256 <= i ensures Entry(m'', b.root, i) == Entry(m, b.root, i) {
      assert Entry(m', a.root, i) == Entry(m, a.root, i);
    }
  }

  /** What asking for the next-level table does: it is there already, or a
      free frame is zeroed and hung in place. */
  ghost predicate Hung(p: Pool, p': Pool, m: Memory, m': Memory, parent: nat, index: nat, t: nat) {
    && (Entry(m, parent, index).v ==> t == Entry(m, parent, index).ppn && m' == m && p' == p)
    && (!Entry(m, parent, index).v ==>
          && t in p.free
          && p'.free == p.free - {t} && p'.owned == p.owned + {t}
          && m' == Put(m[t := Cleared()], parent, index, TableEntry(t)))
  }

  /** The tree `sp` became the tree `s`, with new tables taken from the free
      frames and nothing else touched. */
  ghost predicate Became(p: Pool, p': Pool, m: Memory, m': Memory, sp: Space, s: Space) {
    Holds(m', s) && s.Tables() <= p'.owned && Grew(p, p', sp, s) && Local(m, m', s)
  }

  lemma BecameTwice(p: Pool, q: Pool, r: Pool, m: Memory, m': Memory, m'': Memory, a: Space, b: Space, c: Space)
    requires Became(p, q, m, m', a, b) && Became(q, r, m', m'', b, c)
    ensures Became(p, r, m, m'', a, c)
  {
    GrewTwice(p, q, r, a, b, c);
    LocalTwice(m, m', m'', b, c);
  }

  ghost function WithPd(sp: Space, i2: nat, f: nat): (s: Space) {
    if i2 in sp.pds then sp else sp.(pds := sp.pds[i2 := f])
  }

  ghost function WithPt(sp: Space, i2: nat, i1: nat, f: nat): (s: Space) {
    if (i2, i1) in sp.pts then sp else sp.(pts := sp.pts[(i2, i1) := f])
  }

  lemma HungPd(p: Pool, p': Pool, m: Memory, m': Memory, sp: Space, i2: nat, t: nat)
    requires p.Sound() && Holds(m, sp) && sp.Tables() <= p.owned && i2 < 256
    requires Hung(p, p', m, m', sp.root, i2, t)
    ensures var s := WithPd(sp, i2, t); Became(p, p', m, m', sp, s) && i2 in s.pds && s.pds[i2] == t
  {
    assert Entry(m, sp.root, i2) == sp.RootEntry(i2);
    if i2 in sp.pds {
      assert sp.Tables() - sp.Tables() == {};
    } else {
      AddPd(m, sp, i2, t);
      ValuesGrow(sp.pds, i2, t);
      assert WithPd(sp, i2, t).Tables() - sp.Tables() == {t};
    }
  }

  lemma HungPt(p: Pool, p': Pool, m: Memory, m': Memory, sp: Space, i2: nat, i1: nat, t: nat)
    requires p.Sound() && Holds(m, sp) && sp.Tables() <= p.owned && i2 in sp.pds && i1 < 512
    requires Hung(p, p', m, m', sp.pds[i2], i1, t)
    ensures var s := WithPt(sp, i2, i1, t); Became(p, p', m, m', sp, s) && (i2, i1) in s.pts && s.pts[(i2, i1)] == t
  {
    assert Entry(m, sp.pds[i2], i1) == sp.PdEntry(i2, i1);
    assert sp.pds[i2] in sp.pds.Values;
    if (i2, i1) in sp.pts {
      assert sp.Tables() - sp.Tables() == {};
    } else {
      AddPt(m, sp, i2, i1, t);
      ValuesGrow(sp.pts, (i2, i1), t);
      assert WithPt(sp, i2, i1, t).Tables() - sp.Tables() == {t};
    }
  }

  lemma LeafWritten(p: Pool, m: Memory, sp: Space, k: (nat, nat, nat), e: Pte)
    requires Holds(m, sp) && sp.Tables() <= p.owned && (k.0, k.1) in sp.pts && k.2 < 512 && Usable(e) && IsLeaf(e)
    ensures Became(p, p, m, Put(m, sp.pts[(k.0, k.1)], k.2, e), sp, sp.(flat := sp.flat[k := e]))
  {
    SetLeaf(m, sp, k, e);
    assert sp.pts[(k.0, k.1)] in sp.pts.Values;
    assert sp.Tables() - sp.Tables() == {};
  }

  predicate InUserHalf(va: nat) { Vpn(va).0 < 256 }

  /** The tables on the way to the leaf of `va` found or hung, and `e` written. */
  ghost predicate Threaded(p: Pool, p': Pool, m: Memory, m': Memory, root: nat, va: nat, e: Pte) {
    exists p1: Pool, m1: Memory, m2: Memory, pd: nat, pt: nat ::
      Through(p, p1, p', m, m1, m2, m', root, Vpn(va), pd, pt, e)
  }

  ghost predicate Through(p: Pool, p1: Pool, p2: Pool, m: Memory, m1: Memory, m2: Memory, m3: Memory, root: nat,
                          k: (nat, nat, nat), pd: nat, pt: nat, e: Pte)
  {
    p1.Sound() && Hung(p, p1, m, m1, root, k.0, pd) && Hung(p1, p2, m1, m2, pd, k.1, pt) && m3 == Put(m2, pt, k.2, e)
  }

  ghost function Mapped(sp: Space, k: (nat, nat, nat), pd: nat, pt: nat, e: Pte): (s: Space) {
    var s2 := WithPt(WithPd(sp, k.0, pd), k.0, k.1, pt);
    s2.(flat := sp.flat[k := e])
  }

  /** Both tables found or hung and the leaf written. */
  lemma MapResult(p0: Pool, p1: Pool, p2: Pool, m0: Memory, m1: Memory, m2: Memory, sp: Space, k: (nat, nat, nat),
                  pd: nat, pt: nat, e: Pte)
    requires p0.Sound() && p1.Sound() && Holds(m0, sp) && sp.Tables() <= p0.owned
    requires k.0 < 256 && k.1 < 512 && k.2 < 512 && Usable(e) && IsLeaf(e)
    requires Hung(p0, p1, m0, m1, sp.root, k.0, pd) && Hung(p1, p2, m1, m2, pd, k.1, pt)
    ensures Became(p0, p2, m0, Put(m2, pt, k.2, e), sp, Mapped(sp, k, pd, pt, e))
  {
    HungPd(p0, p1, m0, m1, sp, k.0, pd);
    var s1 := WithPd(sp, k.0, pd);
    HungPt(p1, p2, m1, m2, s1, k.0, k.1, pt);
    var s2 := WithPt(s1, k.0, k.1, pt);
    LeafWritten(p2, m2, s2, k, e);
    BecameTwice(p0, p1, p2, m0, m1, m2, sp, s1, s2);
    BecameTwice(p0, p2, p2, m0, m2, Put(m2, pt, k.2, e), sp, s2, Mapped(sp, k, pd, pt, e));
  }

  /** After mapping `va`, the hardware walk of its page gives the new entry and
      that of every other user page is as before. */
  lemma MapRefinesFlat(m: Memory, m': Memory, sp: Space, s: Space, va: nat, e: Pte, vb: nat)
    requires Holds(m, sp) && Holds(m', s) && s.root == sp.root && s.flat == sp.flat[Vpn(va) := e]
    requires va < USER_TOP && vb < USER_TOP
    ensures Walk(m', s.root, vb) == if vb / 4096 == va / 4096 then Page(0, e) else Walk(m, sp.root, vb)
  {
    WalkIsFlat(m, sp, vb);
    WalkIsFlat(m', s, vb);
    VpnSeparates(va, vb);
  }

  // ---- runs of maps ------------------------------------------------------------------------

  /** Frames are handed out, for whatever use, or a page is mapped. */
  datatype Event = Take(frames: set<nat>) | Map(va: nat, frame: nat, prot: Prot)

  datatype State = State(pool: Pool, mem: Memory, sp: Space)

  ghost predicate Step(a: State, b: State, e: Event) {
    match e
    case Take(fs) => b.mem == a.mem && b.sp == a.sp && b.pool.free == a.pool.free - fs
    case Map(va, f, prot) =>
      && va < USER_TOP && Became(a.pool, b.pool, a.mem, b.mem, a.sp, b.sp)
      && b.sp.flat == a.sp.flat[Vpn(va) := LeafEntry(f, prot)]
  }

  ghost predicate IsRun(ss: seq<State>, es: seq<Event>) {
    |ss| == |es| + 1 && forall i | 0 <= i < |es| :: Step(ss[i], ss[i + 1], es[i])
  }

  /** The last map of the page of `va`. */
  function LastMap(es: seq<Event>, va: nat): (e: Option<Pte>) {
    if es == [] then None
    else
      var last := es[|es| - 1];
      if last.Map? && last.va / 4096 == va / 4096 then Some(LeafEntry(last.frame, last.prot))
      else LastMap(es[..|es| - 1], va)
  }

  /** After any run the hardware walk of every user address finds the last map
      of its page and, where there was none, what it found before. */
  lemma {:induction false} RunRefinesFlat(ss: seq<State>, es: seq<Event>, va: nat)
    requires IsRun(ss, es) && Holds(ss[0].mem, ss[0].sp) && va < USER_TOP
    ensures var z := ss[|es|];
            && Holds(z.mem, z.sp) && z.sp.root == ss[0].sp.root
            && Walk(z.mem, z.sp.root, va) == match LastMap(es, va)
                                             case None => Walk(ss[0].mem, ss[0].sp.root, va)
                                             case Some(e) => Page(0, e)
    decreases |es|
  {
    hide Walk, Holds;
    if es != [] {
      var n := |es| - 1;
      RunRefinesFlat(ss[..n + 1], es[..n], va);
      var a, b, e := ss[n], ss[n + 1], es[n];
      assert Step(a, b, e);
      if e.Map? { MapRefinesFlat(a.mem, b.mem, a.sp, b.sp, e.va, LeafEntry(e.frame, e.prot), va); }
    }
  }

  /** The kernel's root is no table of `sp` and will not become one, and the
      root of `sp` has the kernel's upper half. */
  ghost predicate Apart(p: Pool, m: Memory, sp: Space, kernelRoot: nat) {
    && kernelRoot !in p.free && kernelRoot !in sp.Tables()
    && forall i: nat | 256 <= i < 512 :: Entry(m, sp.root, i) == Entry(m, kernelRoot, i)
  }

  lemma StaysApart(p: Pool, p': Pool, m: Memory, m': Memory, sp: Space, s: Space, kernelRoot: nat)
    requires Became(p, p', m, m', sp, s) && Apart(p, m, sp, kernelRoot)
    ensures Apart(p', m', s, kernelRoot)
  {
    hide Holds;
    assert Same(m, m', kernelRoot);
    forall i: nat | 256 <= i < 512 ensures Entry(m', s.root, i) == Entry(m', kernelRoot, i) {
      assert Entry(m, sp.root, i) == Entry(m, kernelRoot, i);
    }
  }

  /** Every run leaves the kernel's tables alone. */
  lemma {:induction false} RunStaysApart(ss: seq<State>, es: seq<Event>, kernelRoot: nat)
    requires IsRun(ss, es) && Apart(ss[0].pool, ss[0].mem, ss[0].sp, kernelRoot)
    ensures var z := ss[|es|]; Apart(z.pool, z.mem, z.sp, kernelRoot)
    decreases |es|
  {
    hide Apart, Became;
    if es != [] {
      var n := |es| - 1;
      RunStaysApart(ss[..n + 1], es[..n], kernelRoot);
      var a, b, e := ss[n], ss[n + 1], es[n];
      assert Step(a, b, e);
      if e.Map? {
        StaysApart(a.pool, b.pool, a.mem, b.mem, a.sp, b.sp, kernelRoot);
      } else {
        TakeStaysApart(a.pool, b.pool, a.mem, a.sp, kernelRoot);
      }
    }
  }

  lemma TakeStaysApart(p: Pool, p': Pool, m: Memory, sp: Space, kernelRoot: nat)
    requires Apart(p, m, sp, kernelRoot) && p'.free <= p.free
    ensures Apart(p', m, sp, kernelRoot)
  {
  }

  // ---- above the user half -----------------------------------------------------------------

  /** An address above the user half leads into the kernel's own table: with a
      valid kernel entry there, the map is seen from the kernel's root, and a
      table that is not the tree's has changed. */
  lemma HighMapIsTheKernels(p: Pool, p': Pool, m: Memory, m': Memory, sp: Space, kernelRoot: nat, va: nat, e: Pte)
    requires Apart(p, m, sp, kernelRoot) && !InUserHalf(va) && Usable(e) && IsLeaf(e)
    requires Threaded(p, p', m, m', sp.root, va, e)
    requires var k := Entry(m, kernelRoot, Vpn(va).0);
             && k == TableEntry(k.ppn) && k.ppn != kernelRoot && k.ppn !in sp.Tables() && k.ppn !in p.free
             && Tabled(m, k.ppn) && !Entry(m, k.ppn, Vpn(va).1).v
    ensures Walk(m, kernelRoot, va) == Fault && Walk(m', kernelRoot, va) == Page(0, e)
    ensures !Same(m, m', Entry(m, kernelRoot, Vpn(va).0).ppn)
  {
    hide Vpn;
    var k := Vpn(va);
    assert k.0 < 512 && k.1 < 512 && k.2 < 512 by { VpnBelow(va); }
    var p1: Pool, m1: Memory, m2: Memory, pd: nat, pt: nat :| Through(p, p1, p', m, m1, m2, m', sp.root, k, pd, pt, e);
    assert Entry(m, sp.root, k.0) == Entry(m, kernelRoot, k.0);
    assert pd == Entry(m, kernelRoot, k.0).ppn && m1 == m && p1 == p;
    assert pt in p.free && pt != pd && pt != kernelRoot;
    assert m2 == Put(m[pt := Cleared()], pd, k.1, TableEntry(pt));
    assert Entry(m', kernelRoot, k.0) == TableEntry(pd);
    assert Entry(m', pd, k.1) == TableEntry(pt);
    assert Entry(m', pt, k.2) == e;
  }

  lemma VpnBelow(va: nat)
    ensures Vpn(va).0 < 512 && Vpn(va).1 < 512 && Vpn(va).2 < 512
  {
  }

  // ---- conservation ----------------------------------------------------------------------

  /** Every frame of `sp` was free in `p0` and nothing else has changed hands. */
  ghost predicate Built(p0: Pool, p: Pool, sp: Space) {
    sp.Frames() <= p0.free && p.free == p0.free - sp.Frames() && p.owned == p0.owned + sp.Frames()
  }

  /** Tearing down what was built leaves both bitmaps as they were. */
  lemma TeardownRestores(p0: Pool, p: Pool, m: Memory, sp: Space)
    requires p0.Sound() && Built(p0, p, sp) && Holds(m, sp)
    ensures var r := Released(p, MetInRoot(m, sp.root, 256) + {sp.root}); r.free == p0.free && r.owned == p0.owned
  {
    MeetsItsFrames(m, sp);
    var g := sp.Frames();
    assert g * p.owned == g;
    assert p0.free - g + g == p0.free;
    assert p0.owned + g - g == p0.owned;
  }

  /** Freeing some of the frames beforehand makes no difference. */
  lemma EarlyFreesDoNotMatter(p0: Pool, p: Pool, m: Memory, sp: Space, early: set<nat>)
    requires p0.Sound() && Built(p0, p, sp) && Holds(m, sp) && early <= sp.Frames()
    ensures var r := Released(Released(p, early), MetInRoot(m, sp.root, 256) + {sp.root});
            r.free == p0.free && r.owned == p0.owned
  {
    TeardownRestores(p0, p, m, sp);
    MeetsItsFrames(m, sp);
    ReleasedTwice(p, early, sp.Frames());
    assert early + sp.Frames() == sp.Frames();
  }

  lemma EmptyBuilt(p0: Pool, p: Pool, root: nat)
    requires root in p0.free && p.free == p0.free - {root} && p.owned == p0.owned + {root}
    ensures Built(p0, p, Space(root, map[], map[], map[]))
  {
    assert Space(root, map[], map[], map[]).Frames() == {root};
  }

  /** Taking a block of free frames `b` and mapping pages to exactly that block
      keeps the account. */
  lemma MapsKeepAccount(p0: Pool, p: Pool, p1: Pool, p2: Pool, sp: Space, s: Space, b: set<nat>)
    requires Built(p0, p, sp) && b <= p.free && p1.free == p.free - b && p1.owned == p.owned + b
    requires Grew(p1, p2, sp, s) && s.Leaves() == sp.Leaves() + b
    ensures Built(p0, p2, s)
  {
    var new' := s.Tables() - sp.Tables();
    assert s.Frames() == sp.Frames() + b + new';
    assert p2.free == p0.free - s.Frames();
    assert p2.owned == p0.owned + s.Frames();
  }

  lemma LeavesGain(sp: Space, s: Space, k: (nat, nat, nat), e: Pte)
    requires k !in sp.flat && s.flat == sp.flat[k := e]
    ensures s.Leaves() == sp.Leaves() + {e.ppn}
  {
    ValuesGrow(sp.flat, k, e);
  }

  // ---- the code as the source has it ---------------------------------------------------

  class Sv39 {
    const fa: Allocator
    const kernelRoot: nat
    var mem: Memory

    ghost predicate Valid()
      reads this, fa.Repr()
    {
      && this !in fa.Repr() && fa.Valid()
      && kernelRoot < TOTAL
      && forall f: nat | f < TOTAL :: Tabled(mem, f)
    }

    constructor (fa: Allocator, kernelRoot: nat, mem: Memory)
      requires fa.Valid() && kernelRoot < TOTAL
      requires forall f: nat | f < TOTAL :: Tabled(mem, f)
      ensures Valid() && this.fa == fa && this.kernelRoot == kernelRoot && this.mem == mem
    {
      this.fa, this.kernelRoot, this.mem := fa, kernelRoot, mem;
    }

    method Write(f: nat, i: nat, e: Pte)
      requires Valid()
      modifies this`mem
      ensures Valid() && mem == Put(old(mem), f, i, e)
    {
      mem := Put(mem, f, i, e);
      forall g: nat | g < TOTAL ensures Tabled(mem, g) {
        assert Tabled(old(mem), g);
      }
    }

    method ZeroFrame(f: nat)
      requires Valid() && f < TOTAL
      modifies this`mem
      ensures Valid() && mem == old(mem)[f := Cleared()]
    {
      assert Tabled(mem, f);
      for i := 0 to 512
        invariant Valid() && Tabled(mem, f) && mem == old(mem)[f := mem[f]]
        invariant forall k | 0 <= k < i :: mem[f][k] == ZERO
      {
        Write(f, i, ZERO);
      }
      assert mem[f] == Cleared();
    }

    /** The next-level table, allocated and hung in place when missing. A
        missing frame is a kernel panic, reported as `!ok`. */
    method UserTable(parent: nat, index: nat) returns (ok: bool, t: nat)
      requires Valid()
      modifies this`mem, fa.Repr()
      ensures Valid()
      ensures ok ==> Hung(old(fa.State()), fa.State(), old(mem), mem, parent, index, t)
      ensures !ok ==> mem == old(mem) && fa.State() == old(fa.State()) && fa.State().free == {}
    {
      var e := Entry(mem, parent, index);
      if e.v { return true, e.ppn; }
      var f := fa.Alloc();
      if f.None? { return false, 0; }
      t := f.value / FRAME_SIZE;
      ZeroFrame(t);
      Write(parent, index, TableEntry(t));
      return true, t;
    }

    /** The tree of `sp` is in memory and its tables are owned. */
    ghost predicate Has(sp: Space)
      reads this, fa, fa.owned, fa.bitmap
    {
      Holds(mem, sp) && sp.Tables() <= fa.State().owned
    }

    /** The leaf table for the indices `k`, with the tables on the way hung in
        place when missing. */
    method Descend(root: nat, k: (nat, nat, nat))
      returns (ok: bool, ghost p1: Pool, ghost m1: Memory, ghost pd: nat, pt: nat)
      requires Valid()
      modifies this`mem, fa.Repr()
      ensures Valid()
      ensures !ok ==> fa.State().free == {}
      ensures ok ==> && p1.Sound() && Hung(old(fa.State()), p1, old(mem), m1, root, k.0, pd)
                     && Hung(p1, fa.State(), m1, mem, pd, k.1, pt)
    {
      pt := 0;
      var t;
      ok, t := UserTable(root, k.0);
      p1, m1, pd := fa.State(), mem, t;
      if !ok { return; }
      ok, pt := UserTable(t, k.1);
    }

    method WriteLeaf(root: nat, k: (nat, nat, nat), e: Pte)
      returns (ok: bool, ghost p1: Pool, ghost m1: Memory, ghost m2: Memory, ghost pd: nat, ghost pt: nat)
      requires Valid()
      modifies this`mem, fa.Repr()
      ensures Valid()
      ensures !ok ==> fa.State().free == {}
      ensures ok ==> Through(old(fa.State()), p1, fa.State(), old(mem), m1, m2, mem, root, k, pd, pt, e)
    {
      var t;
      ok, p1, m1, pd, t := Descend(root, k);
      m2, pt := mem, t;
      if ok { Write(t, k.2, e); }
    }

    /** Map one page. Whatever the address, the tables its indices lead to are
        found or hung and the entry is written. If the first index is one of the
        user half, the flat map gains exactly this entry. */
    method MapUserPage(ghost sp: Space, root: nat, va: nat, pa: nat, prot: Prot) returns (ok: bool, ghost s: Space)
      requires Valid()
      modifies this`mem, fa.Repr()
      ensures Valid()
      ensures !ok ==> fa.State().free == {}
      ensures ok ==> Threaded(old(fa.State()), fa.State(), old(mem), mem, root, va, LeafEntry(pa / FRAME_SIZE, prot))
      ensures ok && old(Has(sp)) && root == sp.root && InUserHalf(va) ==>
                && Became(old(fa.State()), fa.State(), old(mem), mem, sp, s)
                && s.flat == sp.flat[Vpn(va) := LeafEntry(pa / FRAME_SIZE, prot)]
    {
      hide Holds, Became, Vpn;
      ghost var k, e := Vpn(va), LeafEntry(pa / FRAME_SIZE, prot);
      ghost var p1, m1, m2, pd, pt;
      ok, p1, m1, m2, pd, pt := WriteLeaf(root, Vpn(va), LeafEntry(pa / FRAME_SIZE, prot));
      s := Mapped(sp, k, pd, pt, e);
      if ok && old(Has(sp)) && root == sp.root && InUserHalf(va) {
        MapResult(old(fa.State()), p1, fa.State(), old(mem), m1, m2, sp, k, pd, pt, e);
      }
    }

    /** A fresh root: empty user half, kernel half copied. */
    method NewUserRoot() returns (ok: bool, root: nat)
      requires Valid() && kernelRoot !in fa.State().free
      modifies this`mem, fa.Repr()
      ensures Valid()
      ensures !ok ==> fa.State() == old(fa.State()) && fa.State().free == {}
      ensures ok ==>
                && root in old(fa.State()).free
                && fa.State().free == old(fa.State()).free - {root}
                && fa.State().owned == old(fa.State()).owned + {root}
                && Has(Space(root, map[], map[], map[]))
                && Apart(fa.State(), mem, Space(root, map[], map[], map[]), kernelRoot)
                && forall f: nat | f != root :: Same(old(mem), mem, f)
    {
      var f := fa.Alloc();
      if f.None? { return false, 0; }
      root := f.value / FRAME_SIZE;
      CopyKernelHalf(root);
      ok := true;
    }

    method CopyKernelHalf(root: nat)
      requires Valid() && root < TOTAL && root != kernelRoot
      modifies this`mem
      ensures Valid() && Tabled(mem, root)
      ensures forall f: nat | f != root :: Same(old(mem), mem, f)
      ensures forall k: nat | k < 256 :: Entry(mem, root, k) == ZERO
      ensures forall k: nat | 256 <= k < 512 :: Entry(mem, root, k) == Entry(mem, kernelRoot, k)
    {
      ZeroFrame(root);
      assert Tabled(mem, root);
      for i := 256 to 512
        invariant Valid() && Tabled(mem, root) && mem == old(mem)[root := mem[root]]
        invariant forall k: nat | k < 256 :: mem[root][k] == ZERO
        invariant forall k: nat | 256 <= k < i :: mem[root][k] == Entry(old(mem), kernelRoot, k)
      {
        Write(root, i, Entry(mem, kernelRoot, i));
      }
    }

    /** Give one frame back. */
    method Release(f: nat)
      requires Valid()
      modifies fa.Repr()
      ensures Valid() && fa.State() == Released(old(fa.State()), {f})
    {
      ghost var p := fa.State();
      fa.Free(f * FRAME_SIZE);
      FreeIsRelease(p, fa.State(), f);
    }

    method FreeNth(first: nat, i: nat)
      requires Valid()
      modifies fa.Repr()
      ensures Valid() && fa.State() == Released(old(fa.State()), Single(first, i))
    {
      Release(first + i);
    }

    /** Give a block of frames back one by one. */
    method FreeBlock(first: nat, n: nat)
      requires Valid()
      modifies fa.Repr()
      ensures Valid() && fa.State() == Released(old(fa.State()), Block(first, n))
    {
      ghost var p := fa.State();
      ReleasedNothing(p);
      for i := 0 to n
        invariant Valid() && fa.State() == Released(p, RunOf(first, i))
      {
        FreeNth(first, i);
        ReleasedTwice(p, RunOf(first, i), Single(first, i));
      }
      RunIsBlock(first, n);
    }

    method FreePtEntry(e0: Pte)
      requires Valid()
      modifies fa.Repr()
      ensures Valid() && fa.State() == Released(old(fa.State()), MetAtPt(e0))
    {
      ReleasedNothing(fa.State());
      if e0.v { Release(e0.ppn); }
    }

    method FreePt(pt: nat)
      requires Valid()
      modifies fa.Repr()
      ensures Valid() && fa.State() == Released(old(fa.State()), MetInPt(mem, pt, 512))
    {
      ghost var p := fa.State();
      ReleasedNothing(p);
      for i0 := 0 to 512
        invariant Valid() && fa.State() == Released(p, MetInPt(mem, pt, i0))
      {
        FreePtEntry(Entry(mem, pt, i0));
        ReleasedTwice(p, MetInPt(mem, pt, i0), MetAtPt(Entry(mem, pt, i0)));
      }
    }

    method FreePdEntry(e1: Pte)
      requires Valid()
      modifies fa.Repr()
      ensures Valid() && fa.State() == Released(old(fa.State()), MetAtPd(mem, e1))
    {
      ghost var p := fa.State();
      ReleasedNothing(p);
      if e1.v {
        if IsLeaf(e1) {
          Release(e1.ppn);
        } else {
          FreePt(e1.ppn);
          Release(e1.ppn);
          ReleasedTwice(p, MetInPt(mem, e1.ppn, 512), {e1.ppn});
        }
      }
    }

    method FreePd(pd: nat)
      requires Valid()
      modifies fa.Repr()
      ensures Valid() && fa.State() == Released(old(fa.State()), MetInPd(mem, pd, 512))
    {
      ghost var p := fa.State();
      ReleasedNothing(p);
      for i1 := 0 to 512
        invariant Valid() && fa.State() == Released(p, MetInPd(mem, pd, i1))
      {
        FreePdEntry(Entry(mem, pd, i1));
        ReleasedTwice(p, MetInPd(mem, pd, i1), MetAtPd(mem, Entry(mem, pd, i1)));
      }
    }

    method FreeRootEntry(e2: Pte)
      requires Valid()
      modifies fa.Repr()
      ensures Valid() && fa.State() == Released(old(fa.State()), MetAtRoot(mem, e2))
    {
      ghost var p := fa.State();
      ReleasedNothing(p);
      if e2.v {
        FreePd(e2.ppn);
        Release(e2.ppn);
        ReleasedTwice(p, MetInPd(mem, e2.ppn, 512), {e2.ppn});
      }
    }

    /** Tear the user half down; the kernel half is not looked at. */
    method FreeUserRoot(root: nat)
      requires Valid()
      modifies fa.Repr()
      ensures Valid() && fa.State() == Released(old(fa.State()), MetInRoot(mem, root, 256) + {root})
    {
      ghost var p := fa.State();
      ReleasedNothing(p);
      for i2 := 0 to 256
        invariant Valid() && fa.State() == Released(p, MetInRoot(mem, root, i2))
      {
        FreeRootEntry(Entry(mem, root, i2));
        ReleasedTwice(p, MetInRoot(mem, root, i2), MetAtRoot(mem, Entry(mem, root, i2)));
      }
      Release(root);
      ReleasedTwice(p, MetInRoot(mem, root, 256), {root});
    }
  }
}
