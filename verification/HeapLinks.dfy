/** The free list as it lies in memory: each free block's header holds its
    payload size and the address of the next free block. */
module HeapLinks {
  import opened Words
  import opened HeapTiles

  /** Where in a header, whose every field is one cell, the link is. */
  const NEXT := 8

  /** The address of entry `k`, or `tail` past the end. */
  function Link(fl: seq<Tile>, k: nat, tail: nat): (a: nat) { if k < |fl| then fl[k].lo else tail }

  ghost predicate Entry(mem: Cells, fl: seq<Tile>, k: nat, tail: nat) {
    k < |fl| ==> Load(mem, fl[k].lo) == fl[k].len - HDR && Load(mem, fl[k].lo + NEXT) == Link(fl, k + 1, tail)
  }

  /** From `head` the links run through the blocks of `fl` to `tail`. */
  ghost predicate Linked(mem: Cells, head: nat, fl: seq<Tile>, tail: nat) {
    head == Link(fl, 0, tail) && forall k: nat :: Entry(mem, fl, k, tail)
  }

  ghost predicate Roomy(fl: seq<Tile>) { Ordered(fl) && forall k | 0 <= k < |fl| :: HDR <= fl[k].len }

  lemma LinkedSplit(mem: Cells, head: nat, fl: seq<Tile>, tail: nat, i: nat)
    requires Linked(mem, head, fl, tail) && i <= |fl|
    ensures Linked(mem, head, fl[..i], Link(fl, i, tail)) && Linked(mem, Link(fl, i, tail), fl[i..], tail)
  {
    forall k: nat ensures Entry(mem, fl[..i], k, Link(fl, i, tail)) { assert Entry(mem, fl, k, tail); }
    forall k: nat ensures Entry(mem, fl[i..], k, tail) { assert Entry(mem, fl, i + k, tail); }
  }

  lemma LinkedJoin(mem: Cells, head: nat, a: seq<Tile>, mid: nat, b: seq<Tile>, tail: nat)
    requires Linked(mem, head, a, mid) && Linked(mem, mid, b, tail)
    ensures Linked(mem, head, a + b, tail)
  {
    forall k: nat ensures Entry(mem, a + b, k, tail) {
      if k < |a| { assert Entry(mem, a, k, mid); } else { assert Entry(mem, b, k - |a|, tail); }
    }
  }

  /** The same headers, so the same links. */
  lemma LinkedFrame(mem: Cells, to: Cells, head: nat, fl: seq<Tile>, tail: nat)
    requires Linked(mem, head, fl, tail)
    requires forall k | 0 <= k < |fl| :: Load(to, fl[k].lo) == Load(mem, fl[k].lo)
    requires forall k | 0 <= k < |fl| :: Load(to, fl[k].lo + NEXT) == Load(mem, fl[k].lo + NEXT)
    ensures Linked(to, head, fl, tail)
  {
    forall k: nat ensures Entry(to, fl, k, tail) { assert Entry(mem, fl, k, tail); }
  }

  /** Where the link to entry `k` is stored; 0 stands for the list head. */
  function Hook(fl: seq<Tile>, k: nat): (pp: nat)
    requires k <= |fl|
  {
    if k == 0 then 0 else fl[k - 1].lo + NEXT
  }

  function Aim(mem: Cells, pp: nat, v: nat): (r: Cells) { if pp == 0 then mem else mem[pp := v] }

  /** Rewriting the last link sends the chain elsewhere. */
  lemma Redirected(mem: Cells, head: nat, fl: seq<Tile>, tail: nat, v: nat)
    requires Linked(mem, head, fl, tail) && Roomy(fl)
    ensures Linked(Aim(mem, Hook(fl, |fl|), v), if fl == [] then v else head, fl, v)
  {
    var to := Aim(mem, Hook(fl, |fl|), v);
    forall k: nat ensures Entry(to, fl, k, v) {
      assert Entry(mem, fl, k, tail);
      if k + 1 < |fl| { assert fl[k].Hi() <= fl[|fl| - 1].lo; }
    }
  }

  /** A store into the header of a tile apart from those of `fl`. */
  lemma StoreApart(mem: Cells, head: nat, fl: seq<Tile>, tail: nat, t: Tile, a: nat, v: nat)
    requires Linked(mem, head, fl, tail) && t.lo <= a < t.lo + HDR <= t.Hi()
    requires forall k | 0 <= k < |fl| :: HDR <= fl[k].len && Apart(fl[k], t)
    ensures Linked(mem[a := v], head, fl, tail)
  {
    LinkedFrame(mem, mem[a := v], head, fl, tail);
  }

  lemma RoomyParts(fl: seq<Tile>, i: nat, j: nat)
    requires Roomy(fl) && i <= j <= |fl|
    ensures Roomy(fl[..i]) && Roomy(fl[j..])
  {
    OrderedParts(fl, i, j);
  }

  /** Rewriting the link to entry `k` cuts the list there. */
  lemma Cut(mem: Cells, head: nat, fl: seq<Tile>, k: nat, v: nat)
    requires Linked(mem, head, fl, 0) && Roomy(fl) && k <= |fl|
    ensures var m := Aim(mem, Hook(fl, k), v);
            Linked(m, if k == 0 then v else head, fl[..k], v) && Linked(m, Link(fl, k, 0), fl[k..], 0)
  {
    LinkedSplit(mem, head, fl, 0, k);
    RoomyParts(fl, k, k);
    Redirected(mem, head, fl[..k], Link(fl, k, 0), v);
    if k > 0 { StoreApart(mem, Link(fl, k, 0), fl[k..], 0, fl[k - 1], Hook(fl, k), v); }
  }

  /** The list without entry `k`, as `malloc` leaves it. */
  function Unlinked(mem: Cells, fl: seq<Tile>, k: nat): (r: Cells)
    requires k < |fl|
  {
    Aim(mem, Hook(fl, k), Link(fl, k + 1, 0))[fl[k].lo + NEXT := 0]
  }

  lemma UnlinkedLinks(mem: Cells, head: nat, fl: seq<Tile>, k: nat)
    requires Linked(mem, head, fl, 0) && Roomy(fl) && k < |fl|
    ensures Linked(Unlinked(mem, fl, k), if k == 0 then Link(fl, 1, 0) else head, fl[..k] + fl[k + 1..], 0)
  {
    hide Linked;
    var a, b, v := fl[..k], fl[k + 1..], Link(fl, k + 1, 0);
    var head' := if k == 0 then v else head;
    Cut(mem, head, fl, k, v);
    var m := Aim(mem, Hook(fl, k), v);
    assert fl[k..][1..] == b;
    LinkedSplit(m, Link(fl, k, 0), fl[k..], 0, 1);
    StoreApart(m, head', a, v, fl[k], fl[k].lo + NEXT, 0);
    StoreApart(m, v, b, 0, fl[k], fl[k].lo + NEXT, 0);
    LinkedJoin(Unlinked(mem, fl, k), head', a, v, b, 0);
  }

  /** The list with the block at `a` linked in at `k`. */
  function Hooked(mem: Cells, fl: seq<Tile>, k: nat, a: nat): (r: Cells)
    requires k <= |fl|
  {
    Aim(mem[a + NEXT := Link(fl, k, 0)], Hook(fl, k), a)
  }

  lemma HookedLinks(mem: Cells, head: nat, fl: seq<Tile>, k: nat, f: Tile)
    requires Linked(mem, head, fl, 0) && Roomy(fl) && k <= |fl| && HDR <= f.len && Load(mem, f.lo) == f.len - HDR
    requires forall i | 0 <= i < |fl| :: Apart(fl[i], f)
    ensures Linked(Hooked(mem, fl, k, f.lo), if k == 0 then f.lo else head, Splice(fl, k, k, f), 0)
  {
    hide Linked;
    var a, b, v := fl[..k], fl[k..], Link(fl, k, 0);
    var head' := if k == 0 then f.lo else head;
    StoreApart(mem, head, fl, 0, f, f.lo + NEXT, v);
    Cut(mem[f.lo + NEXT := v], head, fl, k, f.lo);
    var n := Hooked(mem, fl, k, f.lo);
    OneLinked(n, f, v);
    LinkedJoin(n, head', a, f.lo, [f], v);
    LinkedJoin(n, head', a + [f], v, b, 0);
  }

  lemma OneLinked(mem: Cells, f: Tile, v: nat)
    requires Load(mem, f.lo) == f.len - HDR && Load(mem, f.lo + NEXT) == v
    ensures Linked(mem, f.lo, [f], v)
  {
  }

  /** Entry `i` absorbs its successor. */
  function Absorbed(mem: Cells, fl: seq<Tile>, i: nat): (r: Cells)
    requires i + 1 < |fl| && HDR <= fl[i].len
  {
    mem[fl[i].lo := fl[i].len + fl[i + 1].len - HDR][fl[i].lo + NEXT := Link(fl, i + 2, 0)]
  }

  lemma AbsorbedLinks(mem: Cells, head: nat, fl: seq<Tile>, i: nat)
    requires Linked(mem, head, fl, 0) && Roomy(fl) && i + 1 < |fl|
    ensures Linked(Absorbed(mem, fl, i), head, Splice(fl, i, i + 2, Both(fl[i], fl[i + 1])), 0)
  {
    hide Linked;
    var a, b, x, v := fl[..i], fl[i + 2..], fl[i], Link(fl, i + 2, 0);
    var m := Both(x, fl[i + 1]);
    LinkedSplit(mem, head, fl, 0, i);
    LinkedSplit(mem, head, fl, 0, i + 2);
    var n := mem[x.lo := m.len - HDR];
    StoreApart(mem, head, a, x.lo, x, x.lo, m.len - HDR);
    StoreApart(n, head, a, x.lo, x, x.lo + NEXT, v);
    StoreApart(mem, v, b, 0, x, x.lo, m.len - HDR);
    StoreApart(n, v, b, 0, x, x.lo + NEXT, v);
    OneLinked(Absorbed(mem, fl, i), m, v);
    LinkedJoin(Absorbed(mem, fl, i), head, a, x.lo, [m], v);
    LinkedJoin(Absorbed(mem, fl, i), head, a + [m], v, b, 0);
  }

  // ---- payloads ------------------------------------------------------------------------

  /** Every live block keeps its size and the bytes of its payload. */
  ghost predicate Intact(mem: Cells, to: Cells, lives: set<Tile>) {
    forall t, a: nat | t in lives && t.Has(a) && (a == t.lo || t.lo + HDR <= a) :: Load(to, a) == Load(mem, a)
  }

  /** Each live block's header holds its payload size. */
  ghost predicate Sized(mem: Cells, lives: set<Tile>) {
    forall t | t in lives :: Load(mem, t.lo) == t.len - HDR
  }

  /** A store outside the live blocks leaves them intact. */
  lemma StoreIntact(mem: Cells, lives: set<Tile>, a: nat, v: nat)
    requires forall t | t in lives :: t.Has(a) ==> t.lo < a < t.lo + HDR
    ensures Intact(mem, mem[a := v], lives)
  {
  }

  /** Cells holds the heap: the list is linked and every live block sized. */
  ghost predicate Laid(mem: Cells, head: nat, h: Heap) {
    Linked(mem, head, h.fl, 0) && Sized(mem, Lives(h))
  }

  lemma ListRoomy(h: Heap)
    requires Partition(h) && Listed(h)
    ensures Roomy(h.fl)
  {
    forall k: nat | k < |h.fl| ensures HDR <= h.fl[k].len { ListedPositive(h, k); }
  }

  /** A header store in a listed block leaves the live blocks intact. */
  lemma ListStore(mem: Cells, h: Heap, k: nat, a: nat, v: nat)
    requires Partition(h) && Listed(h) && k < |h.fl| && h.fl[k].lo <= a < h.fl[k].lo + HDR
    ensures Intact(mem, mem[a := v], Lives(h))
  {
    ListedPositive(h, k);
    forall t | t in Lives(h) ensures !t.Has(a) { assert Apart(t, h.fl[k]); }
  }

  lemma IntactSized(mem: Cells, to: Cells, lives: set<Tile>)
    requires Sized(mem, lives) && Intact(mem, to, lives) && forall t | t in lives :: 0 < t.len
    ensures Sized(to, lives)
  {
    forall t | t in lives ensures Load(to, t.lo) == t.len - HDR { assert t.Has(t.lo); }
  }

  lemma LivesPositive(h: Heap)
    requires Partition(h)
    ensures forall t | t in Lives(h) :: HDR <= t.len
  {
    forall t | t in Lives(h) ensures HDR <= t.len { assert Placed(h, t); }
  }

  lemma IntactTwice(a: Cells, b: Cells, c: Cells, lives: set<Tile>)
    requires Intact(a, b, lives) && Intact(b, c, lives)
    ensures Intact(a, c, lives)
  {
  }

  lemma HookIntact(mem: Cells, h: Heap, k: nat, v: nat)
    requires Partition(h) && Listed(h) && k <= |h.fl|
    ensures Intact(mem, Aim(mem, Hook(h.fl, k), v), Lives(h))
  {
    if k > 0 { ListStore(mem, h, k - 1, Hook(h.fl, k), v); }
  }

  lemma UnlinkedIntact(mem: Cells, h: Heap, k: nat)
    requires Partition(h) && Listed(h) && k < |h.fl|
    ensures Intact(mem, Unlinked(mem, h.fl, k), Lives(h))
  {
    var v := Link(h.fl, k + 1, 0);
    var m := Aim(mem, Hook(h.fl, k), v);
    HookIntact(mem, h, k, v);
    ListStore(m, h, k, h.fl[k].lo + NEXT, 0);
    IntactTwice(mem, m, Unlinked(mem, h.fl, k), Lives(h));
  }

  /** The block taken off the list keeps its size. */
  lemma UnlinkedSize(mem: Cells, head: nat, fl: seq<Tile>, k: nat)
    requires Linked(mem, head, fl, 0) && Roomy(fl) && k < |fl|
    ensures Load(Unlinked(mem, fl, k), fl[k].lo) == fl[k].len - HDR
  {
    assert Entry(mem, fl, k, 0);
    if k > 0 { assert fl[k - 1].Hi() <= fl[k].lo; }
  }

  /** One more live block, whose header is in place. */
  lemma SizedMore(mem: Cells, to: Cells, lives: set<Tile>, t: Tile)
    requires Sized(mem, lives) && Intact(mem, to, lives) && (forall u | u in lives :: HDR <= u.len)
    requires Load(to, t.lo) == t.len - HDR
    ensures Sized(to, lives + {t})
  {
    IntactSized(mem, to, lives);
  }

  /** `malloc` unlinking a block: the list is the rest, and no live byte moves. */
  lemma ReuseLaid(mem: Cells, head: nat, h: Heap, k: nat)
    requires HeapTiles.Valid(h) && Laid(mem, head, h) && k < |h.fl|
    ensures Laid(Unlinked(mem, h.fl, k), if k == 0 then Link(h.fl, 1, 0) else head, Reuse(h, k))
  {
    ListRoomy(h);
    UnlinkedLinks(mem, head, h.fl, k);
    UnlinkedSize(mem, head, h.fl, k);
    UnlinkedIntact(mem, h, k);
    LivesPositive(h);
    SizedMore(mem, Unlinked(mem, h.fl, k), Lives(h), h.fl[k].(kind := Live));
    ReuseKeeps(h, k);
    assert Reuse(h, k).fl == h.fl[..k] + h.fl[k + 1..];
  }

  /** The header of the block at `a`, as `bump` writes it. */
  function Headed(mem: Cells, a: nat, need: nat): (r: Cells) { mem[a := need][a + NEXT := 0] }

  /** A header written above every tile. */
  lemma HeadedIntact(mem: Cells, head: nat, h: Heap, a: nat, need: nat)
    requires Partition(h) && Listed(h) && h.arena <= a && Linked(mem, head, h.fl, 0)
    ensures Intact(mem, Headed(mem, a, need), Lives(h)) && Linked(Headed(mem, a, need), head, h.fl, 0)
  {
    var t, m := Tile(Live, a, HDR), mem[a := need];
    forall k: nat | k < |h.fl| ensures HDR <= h.fl[k].len && Apart(h.fl[k], t) { ListedPositive(h, k); }
    StoreApart(mem, head, h.fl, 0, t, a, need);
    StoreApart(m, head, h.fl, 0, t, a + NEXT, 0);
    forall u | u in Lives(h) ensures u.Hi() <= h.arena { assert Placed(h, u); }
    StoreIntact(mem, Lives(h), a, need);
    StoreIntact(m, Lives(h), a + NEXT, 0);
    IntactTwice(mem, m, Headed(mem, a, need), Lives(h));
  }

  lemma HookedIntact(mem: Cells, h: Heap, b: Tile, k: nat)
    requires Partition(h) && Listed(h) && b in Lives(h) && k <= |h.fl|
    ensures Intact(mem, Hooked(mem, h.fl, k, b.lo), Lives(h))
  {
    var m := mem[b.lo + NEXT := Link(h.fl, k, 0)];
    LivesPositive(h);
    forall t | t in Lives(h) ensures t.Has(b.lo + NEXT) ==> t.lo < b.lo + NEXT < t.lo + HDR {
      assert t != b ==> Apart(t, b);
    }
    StoreIntact(mem, Lives(h), b.lo + NEXT, Link(h.fl, k, 0));
    HookIntact(m, h, k, b.lo);
    IntactTwice(mem, m, Hooked(mem, h.fl, k, b.lo), Lives(h));
  }

  lemma InsertLinks(mem: Cells, head: nat, h: Heap, b: Tile, k: nat)
    requires Partition(h) && Listed(h) && Laid(mem, head, h) && b in Lives(h) && k <= |h.fl|
    ensures Linked(Hooked(mem, h.fl, k, b.lo), if k == 0 then b.lo else head, Insert(h, b, k).fl, 0)
  {
    ListRoomy(h);
    LivesPositive(h);
    forall i: nat | i < |h.fl| ensures Apart(h.fl[i], b) { ListedPositive(h, i); }
    HookedLinks(mem, head, h.fl, k, b.(kind := Free));
  }

  /** `free` linking a block in. */
  lemma InsertLaid(mem: Cells, head: nat, h: Heap, b: Tile, k: nat)
    requires Partition(h) && Listed(h) && Laid(mem, head, h) && b in Lives(h) && HeapTiles.Position(h.fl, b.lo, k)
    ensures Laid(Hooked(mem, h.fl, k, b.lo), if k == 0 then b.lo else head, Insert(h, b, k))
  {
    InsertLinks(mem, head, h, b, k);
    HookedIntact(mem, h, b, k);
    LivesPositive(h);
    IntactSized(mem, Hooked(mem, h.fl, k, b.lo), Lives(h));
    InsertKeeps(h, b, k);
  }

  lemma AbsorbedIntact(mem: Cells, h: Heap, i: nat)
    requires Partition(h) && Listed(h) && i + 1 < |h.fl| && HDR <= h.fl[i].len
    ensures Intact(mem, Absorbed(mem, h.fl, i), Lives(h))
  {
    var x, size := h.fl[i], h.fl[i].len + h.fl[i + 1].len - HDR;
    ListStore(mem, h, i, x.lo, size);
    ListStore(mem[x.lo := size], h, i, x.lo + NEXT, Link(h.fl, i + 2, 0));
    IntactTwice(mem, mem[x.lo := size], Absorbed(mem, h.fl, i), Lives(h));
  }

  /** `free` merging an entry with the next. */
  lemma FuseLaid(mem: Cells, head: nat, h: Heap, i: nat)
    requires Partition(h) && Listed(h) && Laid(mem, head, h) && Touches(h.fl, i) && HDR <= h.fl[i].len
    ensures Laid(Absorbed(mem, h.fl, i), head, Fuse(h, i))
  {
    ListRoomy(h);
    AbsorbedLinks(mem, head, h.fl, i);
    AbsorbedIntact(mem, h, i);
    LivesPositive(h);
    IntactSized(mem, Absorbed(mem, h.fl, i), Lives(h));
    FuseKeeps(h, i);
    assert Fuse(h, i).fl == Splice(h.fl, i, i + 2, Both(h.fl[i], h.fl[i + 1]));
  }
}
