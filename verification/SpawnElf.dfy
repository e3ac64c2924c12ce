/** Spawning from an ELF file: the pages the loader walks are the image that is
    mapped. */
module SpawnElf {
  import opened Bytes
  import opened Wrappers
  import opened Words
  import opened FrameAllocator
  import opened Paging
  import opened ElfFormat
  import opened ElfImage
  import opened ElfMeaning
  import opened ElfLoader
  import opened Spawn

  predicate Writes(segs: seq<Seg>, page: nat) {
    exists i :: 0 <= i < |segs| && Covers(segs[i], page) && segs[i].prot.Write()
  }

  predicate Runs(segs: seq<Seg>, page: nat) {
    exists i :: 0 <= i < |segs| && Covers(segs[i], page) && segs[i].prot.Exec()
  }

  /** The rights a page gets from all the segments on it. */
  function RightsFor(segs: seq<Seg>, page: nat): (p: Prot)
    ensures RightsOn(segs, page, p)
  {
    match (Writes(segs, page), Runs(segs, page))
    case (false, false) => Ro
    case (true, false) => Rw
    case (false, true) => Rx
    case (true, true) => Rwx
  }

  /** The pages the loader maps, with their rights. */
  function Listed(segs: seq<Seg>): (pages: seq<(nat, Prot)>)
    ensures |pages| == |PagesFrom(segs, 0)|
    ensures forall i | 0 <= i < |pages| :: pages[i] == (PagesFrom(segs, 0)[i], RightsFor(segs, PagesFrom(segs, 0)[i]))
  {
    var ps := PagesFrom(segs, 0);
    seq(|ps|, i requires 0 <= i < |ps| => (ps[i], RightsFor(segs, ps[i])))
  }

  /** What a file comes to: the root is taken between the two kinds of checks. */
  function ImageOf(elf: File, arch: Arch): (image: Image)
    ensures image.Pages? <==> SegsOf(elf, arch).Some?
    ensures image.Pages? ==> image.pages == Listed(SegsOf(elf, arch).value)
  {
    var h := HeaderOf(elf, arch);
    if h.None? || !TableOk(elf, arch, h.value) then BadHeader
    else match Segments(elf, arch, h.value, h.value.phnum)
      case None => BadSegment
      case Some(segs) => Pages(Listed(segs))
  }

  /** What the loader mapped is what is listed. */
  lemma LoaderMapsListed(elf: File, arch: Arch, segs: seq<Seg>, maps: seq<Mapping>, frames: seq<nat>)
    requires AllInside(elf, arch, segs) && Maps(elf, arch, segs, maps, PagesFrom(segs, 0), frames)
    ensures |maps| == |Listed(segs)|
    ensures forall i | 0 <= i < |maps| :: (maps[i].page, maps[i].prot) == Listed(segs)[i]
  {
    forall i | 0 <= i < |maps| ensures (maps[i].page, maps[i].prot) == Listed(segs)[i] {
      assert Faithful(elf, arch, segs, maps[i]);
      SameRights(segs, maps[i].page, maps[i].prot, RightsFor(segs, maps[i].page));
    }
  }

  lemma SameRights(segs: seq<Seg>, page: nat, p: Prot, q: Prot)
    requires RightsOn(segs, page, p) && RightsOn(segs, page, q)
    ensures p == q
  {
  }

  /** Some page is mapped for the segment; one without bytes that does not begin
      a page has one too. */
  predicate Occupies(s: Seg) { Down(s.vaddr) < s.vaddr + s.memsz }

  ghost predicate BelowTop(segs: seq<Seg>) {
    forall k | 0 <= k < |segs| && Occupies(segs[k]) :: segs[k].vaddr + segs[k].memsz <= USER_TOP
  }

  function LastPage(s: Seg): (p: nat)
    requires Occupies(s)
  {
    Down(s.vaddr + s.memsz - 1)
  }

  lemma LastPageCovered(s: Seg)
    requires Occupies(s)
    ensures LastPage(s) % PAGE == 0 && Covers(s, LastPage(s))
    ensures LastPage(s) < USER_TOP <==> s.vaddr + s.memsz <= USER_TOP
  {
    assert USER_TOP % PAGE == 0;
    if s.memsz == 0 { assert Down(s.vaddr - 1) == Down(s.vaddr); }
  }

  /** The image can be mapped page by page exactly if every segment ends below
      the top of the user half. The checks on the file do not see to that where
      the kernel's base is higher. */
  lemma ListedIsSeparate(segs: seq<Seg>)
    ensures Separate(Listed(segs)) <==> BelowTop(segs)
  {
    hide Listed, RightsFor, Vpn;
    var ps, pages := PagesFrom(segs, 0), Listed(segs);
    PagesFromOnce(segs, 0);
    if BelowTop(segs) {
      forall i | 0 <= i < |pages| ensures ps[i] < USER_TOP && ps[i] % PAGE == 0 {
        PagesFromAre(segs, 0, ps[i]);
        var k :| 0 <= k < |segs| && Covers(segs[k], ps[i]);
        CoveredOccupies(segs[k], ps[i]);
      }
      forall i, j | 0 <= i < j < |pages| ensures Vpn(pages[i].0) != Vpn(pages[j].0) {
        VpnSeparates(ps[i], ps[j]);
        PagesDiffer(ps[i], ps[j]);
      }
    } else {
      var k :| 0 <= k < |segs| && Occupies(segs[k]) && segs[k].vaddr + segs[k].memsz > USER_TOP;
      LastPageCovered(segs[k]);
      var p := LastPage(segs[k]);
      PagesFromAre(segs, 0, p);
      var i :| 0 <= i < |ps| && ps[i] == p;
      assert pages[i].0 == p;
    }
  }

  lemma CoveredOccupies(s: Seg, p: nat)
    requires p % PAGE == 0 && Covers(s, p)
    ensures Occupies(s)
  {
    DownIs(s.vaddr, p);
  }

  lemma PagesDiffer(p: nat, q: nat)
    requires p % PAGE == 0 && q % PAGE == 0 && p != q
    ensures p / 4096 != q / 4096
  {
  }

  // ---- from file to walk ------------------------------------------------------------------

  /** What the loader leaves in a page's frame. */
  function Contents(elf: File, arch: Arch, segs: seq<Seg>, page: nat): (b: seq<Byte>)
    requires AllInside(elf, arch, segs)
    ensures |b| == PAGE && forall o: nat | o < PAGE :: b[o] == ByteAt(elf, arch, segs, page + o)
  {
    seq<Byte>(PAGE, o requires 0 <= o < PAGE => ByteAt(elf, arch, segs, page + o))
  }

  /** Physical memory after the first `n` pages were filled in turn. */
  ghost function Poured(elf: File, arch: Arch, segs: seq<Seg>, fs: seq<nat>, n: nat): (ram: map<nat, seq<Byte>>)
    requires AllInside(elf, arch, segs) && n <= |fs| && n <= |PagesFrom(segs, 0)|
  {
    if n == 0 then map[]
    else Poured(elf, arch, segs, fs, n - 1)[fs[n - 1] := Contents(elf, arch, segs, PagesFrom(segs, 0)[n - 1])]
  }

  /** The same from the loader's own record of what it mapped. */
  ghost function RamOf(maps: seq<Mapping>): (ram: map<nat, seq<Byte>>) {
    if maps == [] then map[] else RamOf(maps[..|maps| - 1])[maps[|maps| - 1].frame := maps[|maps| - 1].bytes]
  }

  lemma {:induction false} LoaderPours(elf: File, arch: Arch, segs: seq<Seg>, maps: seq<Mapping>, fs: seq<nat>, n: nat)
    requires AllInside(elf, arch, segs) && Maps(elf, arch, segs, maps, PagesFrom(segs, 0), fs) && n <= |maps|
    ensures RamOf(maps[..n]) == Poured(elf, arch, segs, fs, n)
  {
    hide PagesFrom, ByteAt, RightsOn;
    if n > 0 {
      LoaderPours(elf, arch, segs, maps, fs, n - 1);
      assert maps[..n][..n - 1] == maps[..n - 1];
      assert Faithful(elf, arch, segs, maps[n - 1]);
      assert maps[n - 1].bytes == Contents(elf, arch, segs, PagesFrom(segs, 0)[n - 1]);
    }
  }

  /** Frames that differ keep what was poured into them. */
  lemma {:induction false} PouredStays(elf: File, arch: Arch, segs: seq<Seg>, fs: seq<nat>, n: nat, i: nat)
    requires AllInside(elf, arch, segs) && i < n <= |fs| && n <= |PagesFrom(segs, 0)|
    requires forall a, b | 0 <= a < b < |fs| :: fs[a] != fs[b]
    ensures fs[i] in Poured(elf, arch, segs, fs, n)
    ensures Poured(elf, arch, segs, fs, n)[fs[i]] == Contents(elf, arch, segs, PagesFrom(segs, 0)[i])
  {
    hide PagesFrom, Contents;
    if i < n - 1 { PouredStays(elf, arch, segs, fs, n - 1, i); }
  }

  /** An address of a segment reaches a frame that holds its byte, with the
      rights of all segments on its page. */
  ghost predicate Reached(m: Memory, root: nat, ram: map<nat, seq<Byte>>, elf: File, arch: Arch, segs: seq<Seg>, a: nat)
    requires AllInside(elf, arch, segs)
  {
    var w := Walk(m, root, a);
    && w.Page? && w == Page(0, LeafEntry(w.pte.ppn, RightsFor(segs, Down(a))))
    && w.pte.ppn in ram && |ram[w.pte.ppn]| == PAGE && ram[w.pte.ppn][a - Down(a)] == ByteAt(elf, arch, segs, a)
  }

  /** The same in the file's own words: user mode may read the address, may write
      or execute it exactly as the headers on its page ask for, and finds there
      the byte the headers ask for. */
  ghost predicate Served(m: Memory, root: nat, ram: map<nat, seq<Byte>>, elf: File, arch: Arch, h: Header, a: nat)
    requires TableOk(elf, arch, h)
  {
    var w := Walk(m, root, a);
    && w.Page? && w.level == 0 && UserMay(w.pte, Reading)
    && (UserMay(w.pte, Writing) <==> AsksToWrite(elf, arch, h, h.phnum, a - a % 4096))
    && (UserMay(w.pte, Running) <==> AsksToRun(elf, arch, h, h.phnum, a - a % 4096))
    && w.pte.ppn in ram && |ram[w.pte.ppn]| == 4096 && AsksFor(elf, arch, h, h.phnum, a, ram[w.pte.ppn][a % 4096])
  }

  lemma ReachedServed(m: Memory, root: nat, ram: map<nat, seq<Byte>>, elf: File, arch: Arch, h: Header, segs: seq<Seg>,
                      a: nat)
    requires TableOk(elf, arch, h) && Segments(elf, arch, h, h.phnum) == Some(segs) && AllInside(elf, arch, segs)
    requires Reached(m, root, ram, elf, arch, segs, a)
    ensures Served(m, root, ram, elf, arch, h, a)
  {
    hide Segments, RightsOn, ByteAt, AsksToWrite, AsksToRun, AsksFor, Walk, RightsFor;
    assert Down(a) == a - a % 4096;
    RightsAsked(elf, arch, h, Down(a), RightsFor(segs, Down(a)));
    BytesAsked(elf, arch, h, h.phnum, a);
  }

  lemma SegmentReached(m: Memory, root: nat, elf: File, arch: Arch, segs: seq<Seg>, fs: seq<nat>, first: nat, k: nat,
                       a: nat)
    requires AllInside(elf, arch, segs) && |fs| == |PagesFrom(segs, 0)|
    requires forall i, j | 0 <= i < j < |fs| :: fs[i] != fs[j]
    requires k < |segs| && segs[k].vaddr <= a < segs[k].vaddr + segs[k].memsz && !OnStack(a)
    requires Visible(m, root, Listed(segs), fs, first, a)
    ensures Reached(m, root, Poured(elf, arch, segs, fs, |fs|), elf, arch, segs, a)
  {
    hide Listed, RightsFor, Walk, ByteAt, Poured, PagesFrom;
    var ps := PagesFrom(segs, 0);
    DownIs(a, Down(a));
    assert Covers(segs[k], Down(a));
    PagesFromAre(segs, 0, Down(a));
    var i: nat :| i < |ps| && ps[i] == Down(a);
    assert PageOf(Listed(segs), i, a);
    PouredStays(elf, arch, segs, fs, |fs|, i);
    var o: nat := a - Down(a);
    assert Down(a) + o == a && Contents(elf, arch, segs, ps[i])[o] == ByteAt(elf, arch, segs, Down(a) + o);
  }

  lemma SegsInside(elf: File, arch: Arch)
    requires SegsOf(elf, arch).Some?
    ensures AllInside(elf, arch, SegsOf(elf, arch).value)
  {
    var h := HeaderOf(elf, arch).value;
    SegmentsInside(elf, arch, h, h.phnum);
  }

  /** Off the stack, every address of every segment is reached. */
  ghost predicate AllReached(m: Memory, root: nat, ram: map<nat, seq<Byte>>, elf: File, arch: Arch, segs: seq<Seg>)
    requires AllInside(elf, arch, segs)
  {
    forall k, a: nat | 0 <= k < |segs| && Within(segs[k], a) && !OnStack(a) :: Reached(m, root, ram, elf, arch, segs, a)
  }

  /** Off the stack, every address of every loadable header is served. */
  ghost predicate AllServed(m: Memory, root: nat, ram: map<nat, seq<Byte>>, elf: File, arch: Arch, h: Header)
    requires TableOk(elf, arch, h)
  {
    forall i: nat, a: nat | i < h.phnum && AddressIn(elf, arch, h, i, a) && !OnStack(a) ::
      Served(m, root, ram, elf, arch, h, a)
  }

  lemma AllReachedServed(m: Memory, root: nat, ram: map<nat, seq<Byte>>, elf: File, arch: Arch, h: Header,
                         segs: seq<Seg>)
    requires TableOk(elf, arch, h) && Segments(elf, arch, h, h.phnum) == Some(segs) && AllInside(elf, arch, segs)
    requires AllReached(m, root, ram, elf, arch, segs)
    ensures AllServed(m, root, ram, elf, arch, h)
  {
    hide Segments, Reached, Served, OnStack, PhdrAt;
    forall i: nat, a: nat | i < h.phnum && AddressIn(elf, arch, h, i, a) && !OnStack(a)
      ensures Served(m, root, ram, elf, arch, h, a)
    {
      var k := HeaderIsSegment(elf, arch, h, h.phnum, i);
      assert Within(segs[k], a);
      ReachedServed(m, root, ram, elf, arch, h, segs, a);
    }
  }

  predicate Within(s: Seg, a: nat) { s.vaddr <= a < s.vaddr + s.memsz }

  /** Spawn from a file. If its segments end below the user top, a task that is
      spawned finds at every address of every segment off its stack the byte and
      the rights the file asks for. */
  method SpawnFile(vm: Sv39, elf: File, arch: Arch) returns (r: Outcome, ghost t: Trace)
    requires vm.Valid() && vm.kernelRoot !in vm.fa.State().free
    modifies vm`mem, vm.fa.Repr()
    ensures vm.Valid()
    ensures var image := ImageOf(elf, arch);
            (image.Pages? ==> BelowTop(SegsOf(elf, arch).value)) ==>
              && Accounted(old(vm.fa.State()), vm.fa.State(), vm.mem, vm.kernelRoot, image, r, t)
              && Excused(old(vm.fa.State()), vm.fa.State(), image, r, t)
    ensures r.Spawned? && SegsOf(elf, arch).Some? && BelowTop(SegsOf(elf, arch).value) ==>
              var segs := SegsOf(elf, arch).value;
              && AllInside(elf, arch, segs) && |t.frames| == |PagesFrom(segs, 0)|
              && AllReached(vm.mem, r.root, Poured(elf, arch, segs, t.frames, |t.frames|), elf, arch, segs)
              && AllServed(vm.mem, r.root, Poured(elf, arch, segs, t.frames, |t.frames|), elf, arch,
                           HeaderOf(elf, arch).value)
  {
    hide Accounted, Excused, Separate, BelowTop, Listed, ImageOf, AllReached, AllServed, Segments, Poured, PagesFrom;
    var image := ImageOf(elf, arch);
    r, t := SpawnUser(vm, image);
    if image.Pages? {
      ghost var segs := SegsOf(elf, arch).value;
      ListedIsSeparate(segs);
      if BelowTop(segs) && r.Spawned? {
        SegsInside(elf, arch);
        FileReached(vm.mem, elf, arch, segs, image, r, t, old(vm.fa.State()), vm.fa.State(), vm.kernelRoot);
        AllReachedServed(vm.mem, r.root, Poured(elf, arch, segs, t.frames, |t.frames|), elf, arch,
                         HeaderOf(elf, arch).value, segs);
      }
    } else {
      NoPages(image);
    }
  }

  lemma NoPages(image: Image)
    requires !image.Pages?
    ensures Separate(PagesOf(image))
  {
  }

  lemma FileReached(m: Memory, elf: File, arch: Arch, segs: seq<Seg>, image: Image, r: Outcome, t: Trace, p0: Pool,
                    p: Pool, kernelRoot: nat)
    requires AllInside(elf, arch, segs) && BelowTop(segs) && r.Spawned? && image == Pages(Listed(segs))
    requires Accounted(p0, p, m, kernelRoot, image, r, t)
    ensures |t.frames| == |PagesFrom(segs, 0)|
    ensures AllReached(m, r.root, Poured(elf, arch, segs, t.frames, |t.frames|), elf, arch, segs)
  {
    hide Visible, Listed, Reached, Poured, PagesFrom, Holds, Apart, Took;
    forall k, a: nat | 0 <= k < |segs| && Within(segs[k], a) && !OnStack(a)
      ensures Reached(m, r.root, Poured(elf, arch, segs, t.frames, |t.frames|), elf, arch, segs, a)
    {
      assert Visible(m, r.root, Listed(segs), t.frames, t.first, a);
      SegmentReached(m, r.root, elf, arch, segs, t.frames, t.first, k, a);
    }
  }

  /** Which addresses use the user half of the root, whatever their size: above
      the top the index runs into the kernel's half. */
  lemma UserHalfIndex(va: nat)
    ensures Vpn(va).0 < 256 <==> va % (2 * USER_TOP) < USER_TOP
  {
    var q, r := va / (2 * USER_TOP), va % (2 * USER_TOP);
    assert va == 512 * q * 0x4000_0000 + r;
    assert va / 0x4000_0000 == 512 * q + r / 0x4000_0000;
  }

  // ---- a file above the top ---------------------------------------------------------------

  const RISCV := Arch(243, 0xFFFF_FFC0_0000_0000)

  const HIGH_HEADER := Header(false, USER_TOP, 64, 56, 1)
  const HIGH_PHDR := Phdr(PT_LOAD, 4, 0, USER_TOP, 0, PAGE)
  const HIGH_SEG := Seg(USER_TOP, 0, 0, PAGE, Ro)

  /** A file with one segment of one page just above the user top. */
  function HighFile(u: Unread): (elf: File)
    requires |u.ident| == 10
  {
    Joined(HeaderFields(HIGH_HEADER, RISCV.machine, u)) + Joined(PhdrFields(false, HIGH_PHDR, 0, PAGE))
  }

  /** It passes every check, its page is walked, and the page does not use the
      user half. */
  lemma HighFileAccepted(u: Unread)
    requires |u.ident| == 10
    ensures SegsOf(HighFile(u), RISCV) == Some([HIGH_SEG]) && !BelowTop([HIGH_SEG])
    ensures Listed([HIGH_SEG]) != [] && Listed([HIGH_SEG])[0].0 == USER_TOP && !InUserHalf(USER_TOP)
  {
    HighHeader(u);
    HighPhdr(u);
    HighPages();
  }

  lemma HighHeader(u: Unread)
    requires |u.ident| == 10
    ensures HeaderOf(HighFile(u), RISCV) == Some(HIGH_HEADER) && |HighFile(u)| == 120
  {
    hide Joined, HeaderFields, PhdrFields, HeaderOk, ParseHeader;
    HeaderRoundTrip(HIGH_HEADER, RISCV, u, Joined(PhdrFields(false, HIGH_PHDR, 0, PAGE)));
    HeaderLength(HIGH_HEADER, RISCV.machine, u);
    PhdrRoundTrip(false, HIGH_PHDR, 0, PAGE, []);
  }

  lemma HighPhdr(u: Unread)
    requires |u.ident| == 10
    ensures SegsOf(HighFile(u), RISCV) == Some([HIGH_SEG])
  {
    hide Joined, HeaderFields, PhdrFields, HeaderOk, ParseHeader, ParsePhdr, HeaderOf;
    var elf, ph := HighFile(u), Joined(PhdrFields(false, HIGH_PHDR, 0, PAGE));
    HighHeader(u);
    HeaderLength(HIGH_HEADER, RISCV.machine, u);
    PhdrRoundTrip(false, HIGH_PHDR, 0, PAGE, []);
    assert ph + [] == ph && elf[64..120] == ph;
    assert PhdrAt(elf, RISCV, HIGH_HEADER, 0) == HIGH_PHDR;
    assert SegOk(elf, RISCV, HIGH_PHDR) && Rights(4) == Ro;
    OneSegment(elf, RISCV, HIGH_HEADER, HIGH_PHDR);
  }

  lemma OneSegment(elf: File, arch: Arch, h: Header, p: Phdr)
    requires TableOk(elf, arch, h) && h.phnum == 1 && PhdrAt(elf, arch, h, 0) == p
    requires p.kind == PT_LOAD && SegOk(elf, arch, p)
    ensures Segments(elf, arch, h, h.phnum) == Some([Seg(p.vaddr, p.offset, p.filesz, p.memsz, Rights(p.flags))])
  {
    var none: seq<Seg>, seg := [], Seg(p.vaddr, p.offset, p.filesz, p.memsz, Rights(p.flags));
    assert Segments(elf, arch, h, 0) == Some(none);
    assert none + [seg] == [seg];
  }

  lemma HighPages()
    ensures !BelowTop([HIGH_SEG]) && !InUserHalf(USER_TOP)
    ensures Listed([HIGH_SEG]) != [] && Listed([HIGH_SEG])[0].0 == USER_TOP
  {
    var segs := [HIGH_SEG];
    assert Occupies(segs[0]);
    assert !Earlier(segs, 0, USER_TOP);
    assert Down(USER_TOP) == USER_TOP;
    assert SegPages(segs, 0, USER_TOP)[0] == USER_TOP;
    assert PagesFrom(segs, 0) == SegPages(segs, 0, USER_TOP) + PagesFrom(segs, 1);
  }
}
