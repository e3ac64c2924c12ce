/** Loading a static ELF file page by page into fresh frames. */
module ElfLoader {
  import opened Bytes
  import opened Wrappers
  import opened Words
  import opened Paging
  import opened ElfImage
  import opened ElfMeaning

  /** One call of the mapping operation, with the frame's contents. */
  datatype Mapping = Mapping(page: nat, frame: nat, prot: Prot, bytes: seq<Byte>)

  function HeaderOf(elf: File, arch: Arch): (h: Option<Header>) {
    if HeaderOk(elf, arch) then ParseHeader(elf, arch.machine) else None
  }

  /** The file passes every check; its segments. */
  function SegsOf(elf: File, arch: Arch): (r: Option<seq<Seg>>) {
    var h := HeaderOf(elf, arch);
    if h.Some? && TableOk(elf, arch, h.value) then Segments(elf, arch, h.value, h.value.phnum) else None
  }

  /** A page as it should be: every byte and every right. */
  ghost predicate Faithful(elf: File, arch: Arch, segs: seq<Seg>, m: Mapping)
    requires AllInside(elf, arch, segs)
  {
    && RightsOn(segs, m.page, m.prot) && |m.bytes| == PAGE
    && forall o: nat | o < PAGE :: m.bytes[o] == ByteAt(elf, arch, segs, m.page + o)
  }

  /** The mappings made are of these pages, in these frames, in order. */
  ghost predicate Maps(elf: File, arch: Arch, segs: seq<Seg>, maps: seq<Mapping>, pages: seq<nat>, frames: seq<nat>)
    requires AllInside(elf, arch, segs)
  {
    && |maps| == |pages| <= |frames|
    && forall i | 0 <= i < |maps| ::
       maps[i].page == pages[i] && maps[i].frame == frames[i] && Faithful(elf, arch, segs, maps[i])
  }

  /** A page as the file's own headers ask for it. */
  ghost predicate AsAsked(elf: File, arch: Arch, h: Header, m: Mapping)
    requires TableOk(elf, arch, h)
  {
    && (m.prot.Write() <==> AsksToWrite(elf, arch, h, h.phnum, m.page))
    && (m.prot.Exec() <==> AsksToRun(elf, arch, h, h.phnum, m.page))
    && |m.bytes| == 4096 && forall o: nat | o < 4096 :: AsksFor(elf, arch, h, h.phnum, m.page + o, m.bytes[o])
  }

  ghost predicate AllAsAsked(elf: File, arch: Arch, h: Header, maps: seq<Mapping>)
    requires TableOk(elf, arch, h)
  {
    forall i | 0 <= i < |maps| :: AsAsked(elf, arch, h, maps[i])
  }

  lemma FaithfulAsAsked(elf: File, arch: Arch, h: Header, segs: seq<Seg>, m: Mapping)
    requires TableOk(elf, arch, h) && Segments(elf, arch, h, h.phnum) == Some(segs) && AllInside(elf, arch, segs)
    requires Faithful(elf, arch, segs, m)
    ensures AsAsked(elf, arch, h, m)
  {
    hide Segments, RightsOn, ByteAt, AsksToWrite, AsksToRun, AsksFor;
    RightsAsked(elf, arch, h, m.page, m.prot);
    forall o: nat | o < 4096 ensures AsksFor(elf, arch, h, h.phnum, m.page + o, m.bytes[o]) {
      BytesAsked(elf, arch, h, h.phnum, m.page + o);
    }
  }

  lemma AllFaithfulAsAsked(elf: File, arch: Arch, h: Header, segs: seq<Seg>, maps: seq<Mapping>, pages: seq<nat>,
                           frames: seq<nat>)
    requires TableOk(elf, arch, h) && Segments(elf, arch, h, h.phnum) == Some(segs) && AllInside(elf, arch, segs)
    requires Maps(elf, arch, segs, maps, pages, frames)
    ensures AllAsAsked(elf, arch, h, maps)
  {
    hide Segments, AsAsked, Faithful;
    forall i | 0 <= i < |maps| ensures AsAsked(elf, arch, h, maps[i]) { FaithfulAsAsked(elf, arch, h, segs, maps[i]); }
  }

  /** Pages `done` are mapped, in the first frames of the supply. */
  ghost predicate Progress(elf: File, arch: Arch, segs: seq<Seg>, maps: seq<Mapping>, frames: seq<nat>,
                           done: seq<nat>, supply: seq<nat>) {
    AllInside(elf, arch, segs) && Maps(elf, arch, segs, maps, done, supply) && frames == supply[|done|..]
  }

  function EndOf(pages: seq<nat>): (r: nat) {
    if pages == [] then 0 else var e := EndOf(pages[..|pages| - 1]); Max(e, pages[|pages| - 1] + PAGE)
  }

  /** The least address above every page. */
  lemma {:induction false} EndOfIs(pages: seq<nat>)
    ensures forall i | 0 <= i < |pages| :: pages[i] + 4096 <= EndOf(pages)
    ensures pages == [] ==> EndOf(pages) == 0
    ensures pages != [] ==> exists i :: 0 <= i < |pages| && pages[i] + 4096 == EndOf(pages)
  {
    if pages != [] {
      var n := |pages| - 1;
      EndOfIs(pages[..n]);
      if EndOf(pages[..n]) <= pages[n] + PAGE {
        assert pages[n] + 4096 == EndOf(pages);
      } else {
        var i :| 0 <= i < n && pages[..n][i] + 4096 == EndOf(pages[..n]);
        assert pages[i] + 4096 == EndOf(pages);
      }
    }
  }

  function Union(p: Prot, q: Prot): (r: Prot)
    ensures r.Write() <==> p.Write() || q.Write()
    ensures r.Exec() <==> p.Exec() || q.Exec()
  {
    match (p.Write() || q.Write(), p.Exec() || q.Exec())
    case (false, false) => Ro
    case (true, false) => Rw
    case (false, true) => Rx
    case (true, true) => Rwx
  }

  class Loader {
    const arch: Arch
    var frames: seq<nat>
    var maps: seq<Mapping>

    constructor (arch: Arch, frames: seq<nat>)
      ensures this.arch == arch && this.frames == frames && maps == []
    {
      this.arch, this.frames, this.maps := arch, frames, [];
    }

    /** Collect the loadable segments, checking each. */
    method Collect(elf: File, h: Header) returns (r: Option<seq<Seg>>)
      requires TableOk(elf, arch, h)
      ensures r == Segments(elf, arch, h, h.phnum)
    {
      var segs: seq<Seg> := [];
      var i: nat := 0;
      while i < h.phnum
        invariant i <= h.phnum && Segments(elf, arch, h, i) == Some(segs)
      {
        var p := PhdrAt(elf, arch, h, i);
        i := i + 1;
        if p.kind != PT_LOAD { continue; }
        if !SegOk(elf, arch, p) || |segs| >= MAX_SEGS {
          NoneStays(elf, arch, h, i, h.phnum);
          return None;
        }
        segs := segs + [Seg(p.vaddr, p.offset, p.filesz, p.memsz, Rights(p.flags))];
      }
      return Some(segs);
    }

    /** The union of the rights of every segment on the page. */
    method Merge(segs: seq<Seg>, si: nat, page: nat) returns (p: Prot)
      requires si < |segs| && Covers(segs[si], page)
      ensures RightsOn(segs, page, p)
    {
      p := segs[si].prot;
      var i := 0;
      while i < |segs|
        invariant 0 <= i <= |segs|
        invariant p.Write() <==>
                  segs[si].prot.Write() || exists k :: 0 <= k < i && Covers(segs[k], page) && segs[k].prot.Write()
        invariant p.Exec() <==>
                  segs[si].prot.Exec() || exists k :: 0 <= k < i && Covers(segs[k], page) && segs[k].prot.Exec()
      {
        if Covers(segs[i], page) { p := Union(p, segs[i].prot); }
        i := i + 1;
      }
    }

    /** Copy `src` over `dst` from `off` on. */
    method Copy(dst: array<Byte>, off: nat, src: seq<Byte>)
      requires off + |src| <= dst.Length
      modifies dst
      ensures forall o | 0 <= o < dst.Length :: dst[o] == if off <= o < off + |src| then src[o - off] else old(dst[o])
    {
      var i := 0;
      while i < |src|
        invariant 0 <= i <= |src|
        invariant forall o | 0 <= o < dst.Length :: dst[o] == if off <= o < off + i then src[o - off] else old(dst[o])
      {
        dst[off + i] := src[i];
        i := i + 1;
      }
    }

    /** The bytes one segment contributes to a page. */
    method CopySeg(elf: File, dst: array<Byte>, s: Seg, page: nat)
      requires Inside(elf, arch, s) && dst.Length == PAGE
      modifies dst
      ensures forall o: nat | o < PAGE ::
              dst[o] == if HasFileByte(s, page + o) then elf[s.offset + (page + o - s.vaddr)] else old(dst[o])
    {
      if s.filesz == 0 || !Covers(s, page) { return; }
      var start := Max(s.vaddr, page);
      var pageOff, segOff := start - page, start - s.vaddr;
      if segOff >= s.filesz { return; }
      var n := Min(s.filesz - segOff, PAGE - pageOff);
      Copy(dst, pageOff, elf[s.offset + segOff..s.offset + segOff + n]);
    }

    /** A zeroed frame with every segment's bytes copied in, in order. */
    method Fill(elf: File, segs: seq<Seg>, page: nat) returns (bytes: seq<Byte>)
      requires AllInside(elf, arch, segs)
      ensures |bytes| == PAGE && forall o: nat | o < PAGE :: bytes[o] == ByteAt(elf, arch, segs, page + o)
    {
      var dst := new Byte[PAGE](_ => 0);
      var i := 0;
      while i < |segs|
        invariant 0 <= i <= |segs|
        invariant forall o: nat | o < PAGE :: dst[o] == ByteAt(elf, arch, segs[..i], page + o)
      {
        assert segs[..i + 1][..i] == segs[..i];
        CopySeg(elf, dst, segs[i], page);
        i := i + 1;
      }
      assert segs[..i] == segs;
      return dst[..];
    }

    /** Allocate, fill and map one page. */
    method LoadPage(elf: File, segs: seq<Seg>, si: nat, page: nat, ghost pages: seq<nat>, ghost supply: seq<nat>)
      returns (ok: bool)
      requires Progress(elf, arch, segs, maps, frames, pages, supply) && si < |segs| && Covers(segs[si], page)
      modifies this
      ensures ok ==> Progress(elf, arch, segs, maps, frames, pages + [page], supply)
      ensures ok <==> |pages| < |supply|
    {
      var prot := Merge(segs, si, page);
      if frames == [] { return false; }
      var f := frames[0];
      frames := frames[1..];
      var bytes := Fill(elf, segs, page);
      maps := maps + [Mapping(page, f, prot, bytes)];
      return true;
    }

    /** Walk one segment, skipping the pages an earlier one reached. */
    method LoadSeg(elf: File, segs: seq<Seg>, si: nat, imageEnd: nat, ghost pages: seq<nat>, ghost supply: seq<nat>)
      returns (ok: bool, end: nat, ghost done: seq<nat>)
      requires Progress(elf, arch, segs, maps, frames, pages, supply) && si < |segs| && imageEnd == EndOf(pages)
      modifies this
      ensures ok ==> done == pages + SegPages(segs, si, Down(segs[si].vaddr)) && end == EndOf(done)
      ensures ok ==> Progress(elf, arch, segs, maps, frames, done, supply)
      ensures !ok ==> |supply| < |pages + SegPages(segs, si, Down(segs[si].vaddr))|
    {
      var segEnd, page := segs[si].vaddr + segs[si].memsz, Down(segs[si].vaddr);
      end, done := imageEnd, pages;
      while page < segEnd
        invariant Down(segs[si].vaddr) <= page && end == EndOf(done)
        invariant Progress(elf, arch, segs, maps, frames, done, supply)
        invariant done + SegPages(segs, si, page) == pages + SegPages(segs, si, Down(segs[si].vaddr))
      {
        StepPages(segs, si, page, done);
        if Earlier(segs, si, page) {
          page := page + PAGE;
          continue;
        }
        ok := LoadPage(elf, segs, si, page, done, supply);
        if !ok { return; }
        done := done + [page];
        end := Max(end, page + PAGE);
        page := page + PAGE;
      }
      assert SegPages(segs, si, page) == [];
      ok := true;
    }

    /** Walk every segment. */
    method LoadAll(elf: File, segs: seq<Seg>) returns (ok: bool, end: nat)
      requires AllInside(elf, arch, segs) && maps == []
      modifies this
      ensures ok <==> |PagesFrom(segs, 0)| <= |old(frames)|
      ensures ok ==> Maps(elf, arch, segs, maps, PagesFrom(segs, 0), old(frames)) && end == EndOf(PagesFrom(segs, 0))
    {
      var si := 0;
      end := 0;
      ghost var done: seq<nat>, supply := [], frames;
      while si < |segs|
        invariant 0 <= si <= |segs| && end == EndOf(done)
        invariant Progress(elf, arch, segs, maps, frames, done, supply)
        invariant done + PagesFrom(segs, si) == PagesFrom(segs, 0)
      {
        assert PagesFrom(segs, si) == SegPages(segs, si, Down(segs[si].vaddr)) + PagesFrom(segs, si + 1);
        assert done + SegPages(segs, si, Down(segs[si].vaddr)) + PagesFrom(segs, si + 1) == PagesFrom(segs, 0);
        ok, end, done := LoadSeg(elf, segs, si, end, done, supply);
        if !ok { return; }
        si := si + 1;
      }
      assert done == PagesFrom(segs, 0);
      ok := true;
    }

    /** Load a whole file: the entry point and the first address after it. The
        load succeeds exactly when the file passes the checks and there is a
        frame for each page. */
    method LoadFull(elf: File) returns (r: Option<(nat, nat)>)
      requires Sane(arch) && |elf| < WORD && maps == []
      modifies this
      ensures r.Some? <==> SegsOf(elf, arch).Some? && |PagesFrom(SegsOf(elf, arch).value, 0)| <= |old(frames)|
      ensures r.Some? ==>
                var segs := SegsOf(elf, arch).value;
                && AllInside(elf, arch, segs) && Maps(elf, arch, segs, maps, PagesFrom(segs, 0), old(frames))
                && r.value == (HeaderOf(elf, arch).value.entry, EndOf(PagesFrom(segs, 0)))
      ensures r.Some? ==>
                var h := HeaderOf(elf, arch);
                && h.Some? && TableOk(elf, arch, h.value)
                && PagesAsAsked(elf, arch, h.value, maps) && AllAsAsked(elf, arch, h.value, maps)
    {
      hide Maps, AllAsAsked, PagesAsAsked;
      if !HeaderOk(elf, arch) { return None; }
      var hdr := ParseHeader(elf, arch.machine);
      if hdr.None? || !TableOk(elf, arch, hdr.value) { return None; }
      var collected := Collect(elf, hdr.value);
      if collected.None? { return None; }
      SegmentsInside(elf, arch, hdr.value, hdr.value.phnum);
      var ok, end := LoadAll(elf, collected.value);
      ghost var segs := collected.value;
      if ok {
        AllFaithfulAsAsked(elf, arch, hdr.value, segs, maps, PagesFrom(segs, 0), old(frames));
        PagesAreAsked(elf, arch, hdr.value, segs, maps, old(frames));
      }
      return if ok then Some((hdr.value.entry, end)) else None;
    }
  }

  /** One turn of the page loop. */
  lemma StepPages(segs: seq<Seg>, si: nat, page: nat, done: seq<nat>)
    requires si < |segs| && Down(segs[si].vaddr) <= page < segs[si].vaddr + segs[si].memsz
    ensures Covers(segs[si], page)
    ensures done + SegPages(segs, si, page) ==
              (if Earlier(segs, si, page) then done else done + [page]) + SegPages(segs, si, page + PAGE)
    ensures EndOf(done + [page]) == Max(EndOf(done), page + PAGE)
    ensures !Earlier(segs, si, page) ==> |SegPages(segs, si, page)| > 0
  {
    assert (done + [page])[..|done|] == done;
  }

  lemma {:induction false} NoneStays(elf: File, arch: Arch, h: Header, i: nat, n: nat)
    requires TableOk(elf, arch, h) && i <= n <= h.phnum && Segments(elf, arch, h, i).None?
    ensures Segments(elf, arch, h, n).None?
    decreases n
  {
    if i < n { NoneStays(elf, arch, h, i, n - 1); }
  }

  /** A loaded file: every address of every segment lies in exactly one mapped
      page, which holds its byte and has the rights of all segments on it. */
  lemma AddressLoaded(elf: File, arch: Arch, segs: seq<Seg>, maps: seq<Mapping>, frames: seq<nat>, k: nat, a: nat)
    returns (i: nat)
    requires AllInside(elf, arch, segs) && Maps(elf, arch, segs, maps, PagesFrom(segs, 0), frames)
    requires k < |segs| && segs[k].vaddr <= a < segs[k].vaddr + segs[k].memsz
    ensures i < |maps| && maps[i].page == Down(a) && RightsOn(segs, Down(a), maps[i].prot)
    ensures |maps[i].bytes| == PAGE && maps[i].bytes[a - Down(a)] == ByteAt(elf, arch, segs, a)
    ensures forall j | 0 <= j < |maps| && j != i :: maps[j].page != Down(a)
  {
    hide ByteAt, RightsOn;
    DownIs(a, Down(a));
    assert Covers(segs[k], Down(a));
    PagesFromAre(segs, 0, Down(a));
    PagesFromOnce(segs, 0);
    i :| i < |maps| && PagesFrom(segs, 0)[i] == Down(a);
    assert Faithful(elf, arch, segs, maps[i]);
    var o: nat := a - Down(a);
    assert Down(a) + o == a;
  }

  /** And no page is mapped that no segment covers. */
  lemma OnlyCovered(elf: File, arch: Arch, segs: seq<Seg>, maps: seq<Mapping>, frames: seq<nat>, i: nat)
    requires AllInside(elf, arch, segs) && Maps(elf, arch, segs, maps, PagesFrom(segs, 0), frames) && i < |maps|
    ensures maps[i].page % PAGE == 0 && exists k :: 0 <= k < |segs| && Covers(segs[k], maps[i].page)
  {
    PagesFromAre(segs, 0, maps[i].page);
  }

  /** The pages mapped are those the headers are on, each once. */
  ghost predicate PagesAsAsked(elf: File, arch: Arch, h: Header, maps: seq<Mapping>)
    requires TableOk(elf, arch, h)
  {
    && (forall i, j | 0 <= i < j < |maps| :: maps[i].page != maps[j].page)
    && (forall k | 0 <= k < |maps| :: maps[k].page % 4096 == 0 && SomeLoadsOn(elf, arch, h, maps[k].page))
    && (forall page: nat | page % 4096 == 0 && SomeLoadsOn(elf, arch, h, page) ::
          exists k :: 0 <= k < |maps| && maps[k].page == page)
  }

  ghost predicate SomeLoadsOn(elf: File, arch: Arch, h: Header, page: nat)
    requires TableOk(elf, arch, h)
  {
    exists i: nat :: i < h.phnum && LoadsOn(elf, arch, h, i, page)
  }

  lemma PagesAreAsked(elf: File, arch: Arch, h: Header, segs: seq<Seg>, maps: seq<Mapping>, frames: seq<nat>)
    requires TableOk(elf, arch, h) && Segments(elf, arch, h, h.phnum) == Some(segs) && AllInside(elf, arch, segs)
    requires Maps(elf, arch, segs, maps, PagesFrom(segs, 0), frames)
    ensures PagesAsAsked(elf, arch, h, maps)
  {
    hide Faithful, Segments, PagesFrom, Earlier, SomeLoadsOn;
    PagesFromOnce(segs, 0);
    forall k | 0 <= k < |maps| ensures maps[k].page % 4096 == 0 && SomeLoadsOn(elf, arch, h, maps[k].page) {
      PagesFromAre(segs, 0, maps[k].page);
      CoveredAsked(elf, arch, h, segs, maps[k].page);
    }
    forall page: nat | page % 4096 == 0 && SomeLoadsOn(elf, arch, h, page)
      ensures exists k :: 0 <= k < |maps| && maps[k].page == page
    {
      NoneBefore(segs, page);
      PagesFromAre(segs, 0, page);
      CoveredAsked(elf, arch, h, segs, page);
      var k :| 0 <= k < |PagesFrom(segs, 0)| && PagesFrom(segs, 0)[k] == page;
      assert maps[k].page == page;
    }
  }

  lemma NoneBefore(segs: seq<Seg>, page: nat)
    ensures !Earlier(segs, 0, page)
  {
  }

  lemma CoveredAsked(elf: File, arch: Arch, h: Header, segs: seq<Seg>, page: nat)
    requires TableOk(elf, arch, h) && Segments(elf, arch, h, h.phnum) == Some(segs)
    ensures Earlier(segs, |segs|, page) <==> SomeLoadsOn(elf, arch, h, page)
  {
    hide Segments, PhdrAt;
    if Earlier(segs, |segs|, page) {
      var k :| 0 <= k < |segs| && Covers(segs[k], page);
      var i := SegmentIsHeader(elf, arch, h, h.phnum, k);
      assert LoadsOn(elf, arch, h, i, page);
    }
    if SomeLoadsOn(elf, arch, h, page) {
      var i: nat :| i < h.phnum && LoadsOn(elf, arch, h, i, page);
      var k := HeaderIsSegment(elf, arch, h, h.phnum, i);
      assert Covers(segs[k], page);
    }
  }

  /** Which segment a byte comes from: the last whose file bytes reach it. */
  lemma {:induction false} LastWins(elf: File, arch: Arch, segs: seq<Seg>, k: nat, a: nat)
    requires AllInside(elf, arch, segs) && k < |segs| && HasFileByte(segs[k], a)
    requires forall j | k < j < |segs| :: !HasFileByte(segs[j], a)
    ensures ByteAt(elf, arch, segs, a) == elf[segs[k].offset + (a - segs[k].vaddr)]
    decreases |segs|
  {
    if k < |segs| - 1 { LastWins(elf, arch, segs[..|segs| - 1], k, a); }
  }
}
