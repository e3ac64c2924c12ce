/** The user heap as a partition of its address span into tiles. */
module HeapTiles {

  const HDR := 16

  /** A live block, a free block, or the unused tail of an abandoned chunk. */
  datatype Kind = Live | Free | Tail

  /** [lo, lo + len) of the heap. A block's payload follows its header. */
  datatype Tile = Tile(kind: Kind, lo: nat, len: nat) {
    function Hi(): (h: nat) { lo + len }

    predicate Has(a: nat) { lo <= a < lo + len }
  }

  /** Tiles up to `arena`, then `left` bytes of the current chunk up to `top`.
      The arena is null until the first chunk. The list holds the free tiles in
      the order they are linked. */
  datatype Heap = Heap(base: nat, ts: set<Tile>, fl: seq<Tile>, arena: nat, left: nat, top: nat)

  ghost predicate Apart(t: Tile, u: Tile) { t.Hi() <= u.lo || u.Hi() <= t.lo }

  ghost predicate Covered(ts: set<Tile>, a: nat) { exists t | t in ts :: t.Has(a) }

  ghost predicate Placed(h: Heap, t: Tile) {
    && h.base <= t.lo && t.Hi() <= h.arena && 0 < t.len && (t.kind != Tail ==> HDR <= t.len)
    && t.lo % 16 == 0 && t.len % 16 == 0
  }

  /** Every address from the base to the arena lies in exactly one tile. */
  ghost predicate Partition(h: Heap) {
    && h.arena % 16 == 0
    && (if h.arena == 0 then h.base == 0 && h.left == 0 else 0 < h.base <= h.arena && h.arena + h.left == h.top)
    && (forall t | t in h.ts :: Placed(h, t))
    && (forall t, u | t in h.ts && u in h.ts && t != u :: Apart(t, u))
    && (forall a: nat | h.base <= a < h.arena :: Covered(h.ts, a))
  }

  ghost predicate Ordered(fl: seq<Tile>) { forall i, k | 0 <= i < k < |fl| :: fl[i].Hi() <= fl[k].lo }

  /** Entry `i` does not touch the next one. */
  ghost predicate Gap(fl: seq<Tile>, i: int) { 0 <= i < |fl| - 1 ==> fl[i].Hi() < fl[i + 1].lo }

  ghost predicate Coalesced(fl: seq<Tile>) { forall i :: Gap(fl, i) }

  /** The list holds exactly the free tiles, by address. */
  ghost predicate Listed(h: Heap) {
    Ordered(h.fl) && forall t :: t in h.fl <==> t in h.ts && t.kind == Free
  }

  ghost predicate Valid(h: Heap) { Partition(h) && Listed(h) && Coalesced(h.fl) }

  /** The live tiles. */
  ghost function Lives(h: Heap): (r: set<Tile>) { set t | t in h.ts && t.kind == Live }

  // ---- lists ------------------------------------------------------------------------

  lemma OrderedJoin(a: seq<Tile>, b: seq<Tile>)
    requires Ordered(a) && Ordered(b)
    requires forall i, k | 0 <= i < |a| && 0 <= k < |b| :: a[i].Hi() <= b[k].lo
    ensures Ordered(a + b)
  {
  }

  lemma OrderedParts(fl: seq<Tile>, i: nat, j: nat)
    requires Ordered(fl) && i <= j <= |fl|
    ensures Ordered(fl[..i]) && Ordered(fl[j..]) && Ordered(fl[..i] + fl[j..])
  {
    OrderedJoin(fl[..i], fl[j..]);
  }

  /** Entries i to j give way to one tile that lies between their neighbours. */
  function Splice(fl: seq<Tile>, i: nat, j: nat, m: Tile): (r: seq<Tile>)
    requires i <= j <= |fl|
  {
    fl[..i] + [m] + fl[j..]
  }

  lemma OrderedSplice(fl: seq<Tile>, i: nat, j: nat, m: Tile)
    requires Ordered(fl) && i <= j <= |fl|
    requires forall k | 0 <= k < i :: fl[k].Hi() <= m.lo
    requires forall k | j <= k < |fl| :: m.Hi() <= fl[k].lo
    ensures Ordered(Splice(fl, i, j, m))
  {
    OrderedParts(fl, i, j);
    OrderedJoin(fl[..i], [m]);
    OrderedJoin(fl[..i] + [m], fl[j..]);
  }

  lemma PartsMembers(fl: seq<Tile>, i: nat, j: nat, t: Tile)
    requires Ordered(fl) && i <= j <= |fl| && forall k | 0 <= k < |fl| :: 0 < fl[k].len
    ensures t in fl[..i] + fl[j..] <==> t in fl && t !in fl[i..j]
  {
    assert fl == fl[..i] + fl[i..j] + fl[j..];
    if t in fl[i..j] {
      var k :| 0 <= k < |fl[i..j]| && fl[i..j][k] == t;
      assert fl[i + k] == t;
    }
  }

  // ---- taking a block ----------------------------------------------------------------

  /** First-fit: the first listed block whose payload is large enough. */
  ghost predicate FirstFit(fl: seq<Tile>, need: nat, k: nat) {
    k <= |fl| && (k < |fl| ==> fl[k].len >= need + HDR) && forall i | 0 <= i < k :: fl[i].len < need + HDR
  }

  function Reuse(h: Heap, k: nat): (r: Heap)
    requires k < |h.fl|
  {
    h.(ts := h.ts - {h.fl[k]} + {h.fl[k].(kind := Live)}, fl := h.fl[..k] + h.fl[k + 1..])
  }

  /** Tiles `gone` give way to the tile `m` that spans them. */
  lemma ReplaceKeeps(h: Heap, gone: set<Tile>, m: Tile)
    requires Partition(h) && Placed(h, m)
    requires forall t | t in gone :: m.lo <= t.lo && t.Hi() <= m.Hi()
    requires forall t | t in h.ts && t !in gone :: Apart(t, m)
    ensures Partition(h.(ts := h.ts - gone + {m}))
  {
    var ts := h.ts - gone + {m};
    forall a: nat | h.base <= a < h.arena ensures Covered(ts, a) {
      assert Covered(h.ts, a);
      var u :| u in h.ts && u.Has(a);
      if u in gone { assert m in ts && m.Has(a); } else { assert u in ts; }
    }
  }

  /** A reused block leaves the list and becomes live; nothing else changes. */
  lemma ReuseKeeps(h: Heap, k: nat)
    requires Valid(h) && k < |h.fl|
    ensures Valid(Reuse(h, k)) && Lives(Reuse(h, k)) == Lives(h) + {h.fl[k].(kind := Live)}
    ensures h.fl[k].(kind := Live) !in h.ts
  {
    var t := h.fl[k];
    assert t in h.fl;
    var l := t.(kind := Live);
    assert l !in h.ts by { assert Placed(h, t) && (l in h.ts ==> Apart(l, t)); }
    ReplaceKeeps(h, {t}, l);
    assert Reuse(h, k).(fl := h.fl) == h.(ts := h.ts - {t} + {l});
    ReuseListed(h, k);
    ReuseCoalesced(h.fl, k);
  }

  lemma ListedPositive(h: Heap, k: nat)
    requires Partition(h) && Listed(h) && k < |h.fl|
    ensures h.fl[k] in h.ts && h.fl[k].kind == Free && Placed(h, h.fl[k])
  {
    assert h.fl[k] in h.fl;
  }

  lemma ReuseListed(h: Heap, k: nat)
    requires Partition(h) && Listed(h) && k < |h.fl|
    ensures Listed(Reuse(h, k))
  {
    OrderedParts(h.fl, k, k + 1);
    forall i: nat | i < |h.fl| ensures 0 < h.fl[i].len { ListedPositive(h, i); }
    forall t ensures t in h.fl[..k] + h.fl[k + 1..] <==> t in h.fl && t != h.fl[k] {
      PartsMembers(h.fl, k, k + 1, t);
      assert h.fl[k..k + 1] == [h.fl[k]];
    }
  }

  lemma ReuseCoalesced(fl: seq<Tile>, k: nat)
    requires Ordered(fl) && Coalesced(fl) && k < |fl|
    ensures Coalesced(fl[..k] + fl[k + 1..])
  {
    var r := fl[..k] + fl[k + 1..];
    forall i ensures Gap(r, i) {
      if 0 <= i < |r| - 1 {
        assert Gap(fl, i) && Gap(fl, i + 1);
      }
    }
  }

  /** Carve a block off the arena. */
  function Carve(h: Heap, len: nat): (r: Heap)
    requires len <= h.left
  {
    h.(ts := h.ts + {Tile(Live, h.arena, len)}, arena := h.arena + len, left := h.left - len)
  }

  lemma CarveKeeps(h: Heap, len: nat)
    requires Valid(h) && HDR <= len <= h.left && len % 16 == 0
    ensures Valid(Carve(h, len)) && Lives(Carve(h, len)) == Lives(h) + {Tile(Live, h.arena, len)}
    ensures Tile(Live, h.arena, len) !in h.ts
  {
    var r := Carve(h, len);
    forall a: nat | r.base <= a < r.arena ensures Covered(r.ts, a) {
      if a < h.arena {
        assert Covered(h.ts, a);
      } else {
        assert Tile(Live, h.arena, len).Has(a);
      }
    }
  }

  /** Abandon the rest of the chunk and begin a new one at the top. */
  function NewChunk(h: Heap, len: nat): (r: Heap) {
    h.(ts := if 0 < h.left then h.ts + {Tile(Tail, h.arena, h.left)} else h.ts,
       base := if h.arena == 0 then h.top else h.base, arena := h.top, left := len, top := h.top + len)
  }

  lemma NewChunkKeeps(h: Heap, len: nat)
    requires Valid(h) && 0 < h.top && h.top % 16 == 0
    ensures Valid(NewChunk(h, len)) && Lives(NewChunk(h, len)) == Lives(h)
  {
    hide Partition, Coalesced;
    NewChunkPartition(h, len);
    assert NewChunk(h, len).fl == h.fl;
  }

  lemma NewChunkPartition(h: Heap, len: nat)
    requires Partition(h) && Listed(h) && 0 < h.top && h.top % 16 == 0
    ensures Partition(NewChunk(h, len))
  {
    var r := NewChunk(h, len);
    if h.arena == 0 {
      NullArena(h);
    } else {
      forall t | t in r.ts ensures Placed(r, t) { assert t in h.ts ==> Placed(h, t); }
      forall t, u | t in r.ts && u in r.ts && t != u ensures Apart(t, u) {
        assert t in h.ts ==> Placed(h, t);
        assert u in h.ts ==> Placed(h, u);
      }
      forall a: nat | r.base <= a < r.arena ensures Covered(r.ts, a) {
        if a < h.arena {
          assert Covered(h.ts, a);
        } else {
          assert Tile(Tail, h.arena, h.left).Has(a);
        }
      }
    }
  }

  /** Before its first chunk the heap has no tiles. */
  lemma NullArena(h: Heap)
    requires Partition(h) && Listed(h) && h.arena == 0
    ensures h.ts == {} && h.fl == []
  {
    if |h.fl| > 0 { ListedPositive(h, 0); }
    assert h.ts == {} by { assert forall t | t in h.ts :: Placed(h, t); }
  }

  // ---- giving a block back -------------------------------------------------------------

  /** `k` listed blocks lie below address `a`, the others above. */
  ghost predicate Position(fl: seq<Tile>, a: nat, k: nat) {
    k <= |fl| && (forall i | 0 <= i < k :: fl[i].lo < a) && (forall i | k <= i < |fl| :: a <= fl[i].lo)
  }

  /** The block becomes free and enters the list at `k`. */
  function Insert(h: Heap, b: Tile, k: nat): (r: Heap)
    requires k <= |h.fl|
  {
    var f := b.(kind := Free);
    h.(ts := h.ts - {b} + {f}, fl := Splice(h.fl, k, k, f))
  }

  predicate Touches(fl: seq<Tile>, i: int) { 0 <= i < |fl| - 1 && fl[i].Hi() == fl[i + 1].lo }

  function Both(x: Tile, y: Tile): (m: Tile) { Tile(Free, x.lo, x.len + y.len) }

  /** Entries `i` and `i + 1` become one block. */
  function Fuse(h: Heap, i: nat): (r: Heap)
    requires i + 1 < |h.fl|
  {
    var m := Both(h.fl[i], h.fl[i + 1]);
    h.(ts := h.ts - {h.fl[i], h.fl[i + 1]} + {m}, fl := Splice(h.fl, i, i + 2, m))
  }

  function FuseNext(h: Heap, k: nat): (r: Heap) { if Touches(h.fl, k) then Fuse(h, k) else h }

  function FusePrev(h: Heap, k: nat): (r: Heap) { if 0 < k && Touches(h.fl, k - 1) then Fuse(h, k - 1) else h }

  /** Insert in address order, then merge with the next and the previous block. */
  function Release(h: Heap, b: Tile, k: nat): (r: Heap)
    requires k <= |h.fl|
  {
    FusePrev(FuseNext(Insert(h, b, k), k), k)
  }

  lemma InsertKeeps(h: Heap, b: Tile, k: nat)
    requires Partition(h) && Listed(h) && b in h.ts && b.kind == Live && Position(h.fl, b.lo, k)
    ensures Partition(Insert(h, b, k)) && Listed(Insert(h, b, k))
    ensures Lives(Insert(h, b, k)) == Lives(h) - {b}
  {
    var f, fl := b.(kind := Free), h.fl;
    assert Placed(h, b) && Placed(h, f);
    ReplaceKeeps(h, {b}, f);
    assert Insert(h, b, k).(fl := fl) == h.(ts := h.ts - {b} + {f});
    forall i: nat | i < |fl| ensures Apart(fl[i], b) && 0 < fl[i].len { ListedPositive(h, i); }
    OrderedSplice(fl, k, k, f);
    SpliceMembers(fl, k, k, f);
  }

  /** A spliced list has the new tile and all the old ones but those replaced. */
  lemma SpliceMembers(fl: seq<Tile>, i: nat, j: nat, m: Tile)
    requires Ordered(fl) && i <= j <= |fl| && forall k | 0 <= k < |fl| :: 0 < fl[k].len
    ensures forall t :: t in Splice(fl, i, j, m) <==> t == m || (t in fl && t !in fl[i..j])
  {
    forall t ensures t in Splice(fl, i, j, m) <==> t == m || (t in fl && t !in fl[i..j]) {
      PartsMembers(fl, i, j, t);
    }
  }

  /** Joining two touching blocks moves no boundary but the one between them. */
  lemma FuseKeeps(h: Heap, i: nat)
    requires Partition(h) && Listed(h) && Touches(h.fl, i)
    ensures Partition(Fuse(h, i)) && Listed(Fuse(h, i)) && Lives(Fuse(h, i)) == Lives(h)
  {
    var x, y := h.fl[i], h.fl[i + 1];
    var m := Both(x, y);
    ListedPositive(h, i);
    ListedPositive(h, i + 1);
    assert Placed(h, m);
    ReplaceKeeps(h, {x, y}, m);
    assert Fuse(h, i).(fl := h.fl) == h.(ts := h.ts - {x, y} + {m});
    FuseListed(h, i);
  }

  lemma FuseListed(h: Heap, i: nat)
    requires Partition(h) && Listed(h) && Touches(h.fl, i)
    ensures Listed(Fuse(h, i))
  {
    forall k: nat | k < |h.fl| ensures 0 < h.fl[k].len { ListedPositive(h, k); }
    OrderedSplice(h.fl, i, i + 2, Both(h.fl[i], h.fl[i + 1]));
    SpliceMembers(h.fl, i, i + 2, Both(h.fl[i], h.fl[i + 1]));
    assert h.fl[i..i + 2] == [h.fl[i], h.fl[i + 1]];
  }

  /** Freeing keeps the partition, the order and the gaps. */
  lemma ReleaseKeeps(h: Heap, b: Tile, k: nat)
    requires Valid(h) && b in h.ts && b.kind == Live && Position(h.fl, b.lo, k)
    ensures Valid(Release(h, b, k)) && Lives(Release(h, b, k)) == Lives(h) - {b}
  {
    InsertKeeps(h, b, k);
    var r := Insert(h, b, k);
    if Touches(r.fl, k) { FuseKeeps(r, k); }
    var s := FuseNext(r, k);
    if 0 < k && Touches(s.fl, k - 1) { FuseKeeps(s, k - 1); }
    ReleaseCoalesced(h, b, k);
  }

  /** After the two merges no two neighbours in the list touch. */
  lemma ReleaseCoalesced(h: Heap, b: Tile, k: nat)
    requires Coalesced(h.fl) && k <= |h.fl|
    requires Ordered(Insert(h, b, k).fl) && Ordered(FuseNext(Insert(h, b, k), k).fl)
    ensures Coalesced(Release(h, b, k).fl)
  {
    var r := Insert(h, b, k);
    InsertGaps(h.fl, b.(kind := Free), k);
    if Touches(r.fl, k) { FuseGaps(r.fl, k, k - 1); }
    var s := FuseNext(r, k);
    assert GapsBut(s.fl, k - 1, k - 1);
    if 0 < k && Touches(s.fl, k - 1) { FuseGaps(s.fl, k - 1, -1); }
    assert GapsBut(FusePrev(s, k).fl, -1, -1);
  }

  /** Only the entries `d` and `e` may touch their successor. */
  ghost predicate GapsBut(fl: seq<Tile>, d: int, e: int) { forall j | j != d && j != e :: Gap(fl, j) }

  lemma InsertGaps(fl: seq<Tile>, f: Tile, k: nat)
    requires Coalesced(fl) && k <= |fl|
    ensures GapsBut(Splice(fl, k, k, f), k, k - 1)
  {
    var r := Splice(fl, k, k, f);
    forall j | j != k && j != k - 1 ensures Gap(r, j) {
      if j < k { assert Gap(fl, j); } else { assert Gap(fl, j - 1); }
    }
  }

  /** Joining entries `i` and `i + 1` closes the one gap that was missing. */
  lemma FuseGaps(fl: seq<Tile>, i: nat, e: int)
    requires Touches(fl, i) && e < i && GapsBut(fl, i, e)
    ensures GapsBut(Splice(fl, i, i + 2, Both(fl[i], fl[i + 1])), e, e)
  {
    var r := Splice(fl, i, i + 2, Both(fl[i], fl[i + 1]));
    forall j | j != e ensures Gap(r, j) {
      if j < i { assert Gap(fl, j); } else { assert Gap(fl, j + 1); }
    }
  }
}
