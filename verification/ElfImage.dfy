/** A static ELF file, what it says a process's memory should hold, and which
    pages that takes. */
module ElfImage {
  import opened Bytes
  import opened Wrappers
  import opened Words
  import opened Paging

  const PT_LOAD := 1
  const ELF32_HEADER := 52
  const ELF64_HEADER := 64
  const PHENT32_SIZE := 32
  const PHENT64_SIZE := 56
  const EM_386 := 3
  const MAX_SEGS := 16

  type File = seq<Byte>

  /** What differs between the kernels: the machine number and where the kernel
      half of the address space begins. */
  datatype Arch = Arch(machine: nat, physOffset: nat)

  predicate Sane(arch: Arch) { arch.physOffset % PAGE == 0 && arch.physOffset + PAGE <= WORD }

  // ---- fields --------------------------------------------------------------------------------

  function U16(b: File, o: nat): (r: nat)
    requires o + 2 <= |b|
    ensures r < 0x1_0000
  {
    b[o] as nat + 256 * b[o + 1] as nat
  }

  function U32(b: File, o: nat): (r: nat)
    requires o + 4 <= |b|
    ensures r < 0x1_0000_0000
  {
    U16(b, o) + 0x1_0000 * U16(b, o + 2)
  }

  function U64(b: File, o: nat): (r: nat)
    requires o + 8 <= |b|
    ensures r < WORD
  {
    U32(b, o) + 0x1_0000_0000 * U32(b, o + 4)
  }

  datatype Header = Header(class32: bool, entry: nat, phoff: nat, phentsize: nat, phnum: nat)

  datatype Phdr = Phdr(kind: nat, flags: nat, offset: nat, vaddr: nat, filesz: nat, memsz: nat)

  function ParseHeader(elf: File, machine: nat): (h: Option<Header>)
    requires |elf| >= (if elf != [] && |elf| > 4 && elf[4] == 1 then ELF32_HEADER else ELF64_HEADER)
  {
    if elf[4] == 1 then
      if machine != EM_386 then None else Some(Header(true, U32(elf, 24), U32(elf, 28), U16(elf, 42), U16(elf, 44)))
    else if elf[4] == 2 then
      if machine == EM_386 then None else Some(Header(false, U64(elf, 24), U64(elf, 32), U16(elf, 54), U16(elf, 56)))
    else None
  }

  function PhentMin(class32: bool): (n: nat) { if class32 then PHENT32_SIZE else PHENT64_SIZE }

  function ParsePhdr(ph: File, class32: bool): (p: Phdr)
    requires |ph| >= PhentMin(class32)
  {
    if class32 then Phdr(U32(ph, 0), U32(ph, 24), U32(ph, 4), U32(ph, 8), U32(ph, 16), U32(ph, 20))
    else Phdr(U32(ph, 0), U32(ph, 4), U64(ph, 8), U64(ph, 16), U64(ph, 32), U64(ph, 40))
  }

  // ---- validation ----------------------------------------------------------------------------

  /** The checks on the header, in the order they are made. */
  predicate HeaderOk(elf: File, arch: Arch) {
    && |elf| >= ELF32_HEADER && elf[0] == 0x7F && elf[1] == 0x45 && elf[2] == 0x4C && elf[3] == 0x46
    && (elf[4] == 1 || elf[4] == 2) && elf[5] == 1 && U16(elf, 16) == 2 && U16(elf, 18) == arch.machine
    && |elf| >= (if elf[4] == 1 then ELF32_HEADER else ELF64_HEADER)
    && (elf[4] == 1 <==> arch.machine == EM_386)
  }

  /** The program headers lie inside the file and the entry in the user half. */
  predicate TableOk(elf: File, arch: Arch, h: Header) {
    && h.phentsize >= PhentMin(h.class32) && h.phnum != 0
    && h.phoff + h.phnum * h.phentsize < WORD && h.phoff + h.phnum * h.phentsize <= |elf|
    && h.entry < arch.physOffset
  }

  /** A loadable segment, with the rights its flags give. */
  datatype Seg = Seg(vaddr: nat, offset: nat, filesz: nat, memsz: nat, prot: Prot)

  function Rights(flags: nat): (p: Prot) {
    match (flags / 2 % 2 != 0, flags % 2 != 0)
    case (false, false) => Ro
    case (true, false) => Rw
    case (false, true) => Rx
    case (true, true) => Rwx
  }

  predicate SegOk(elf: File, arch: Arch, p: Phdr) {
    && p.vaddr + p.memsz < WORD && p.vaddr + p.memsz <= arch.physOffset
    && p.offset + p.filesz < WORD && p.offset + p.filesz <= |elf| && p.filesz <= p.memsz
  }

  function PhdrAt(elf: File, arch: Arch, h: Header, i: nat): (p: Phdr)
    requires TableOk(elf, arch, h) && i < h.phnum
  {
    EntryInside(elf, arch, h, i);
    ParsePhdr(elf[h.phoff + i * h.phentsize..h.phoff + i * h.phentsize + h.phentsize], h.class32)
  }

  lemma EntryInside(elf: File, arch: Arch, h: Header, i: nat)
    requires TableOk(elf, arch, h) && i < h.phnum
    ensures h.phoff + i * h.phentsize + h.phentsize <= |elf|
  {
    assert (i + 1) * h.phentsize <= h.phnum * h.phentsize;
  }

  /** The first `n` program headers' loadable segments, or none if one of them
      is bad or there are too many. */
  function Segments(elf: File, arch: Arch, h: Header, n: nat): (r: Option<seq<Seg>>)
    requires TableOk(elf, arch, h) && n <= h.phnum
  {
    if n == 0 then Some([])
    else
      var segs := Segments(elf, arch, h, n - 1);
      var p := PhdrAt(elf, arch, h, n - 1);
      if segs.None? || p.kind != PT_LOAD then segs
      else if !SegOk(elf, arch, p) || |segs.value| >= MAX_SEGS then None
      else Some(segs.value + [Seg(p.vaddr, p.offset, p.filesz, p.memsz, Rights(p.flags))])
  }

  /** What the checks establish of a segment. */
  predicate Inside(elf: File, arch: Arch, s: Seg) {
    s.vaddr + s.memsz <= arch.physOffset && s.offset + s.filesz <= |elf| && s.filesz <= s.memsz
  }

  ghost predicate AllInside(elf: File, arch: Arch, segs: seq<Seg>) {
    forall i | 0 <= i < |segs| :: Inside(elf, arch, segs[i])
  }

  lemma {:induction false} SegmentsInside(elf: File, arch: Arch, h: Header, n: nat)
    requires TableOk(elf, arch, h) && n <= h.phnum && Segments(elf, arch, h, n).Some?
    ensures AllInside(elf, arch, Segments(elf, arch, h, n).value) && |Segments(elf, arch, h, n).value| <= MAX_SEGS
  {
    if n > 0 { SegmentsInside(elf, arch, h, n - 1); }
  }

  // ---- the image -----------------------------------------------------------------------------

  predicate HasFileByte(s: Seg, a: nat) { s.vaddr <= a < s.vaddr + s.filesz }

  /** The byte at address `a`: of the last segment whose file bytes reach it,
      or zero. */
  function ByteAt(elf: File, arch: Arch, segs: seq<Seg>, a: nat): (b: Byte)
    requires AllInside(elf, arch, segs)
  {
    if segs == [] then 0
    else
      var s := segs[|segs| - 1];
      if HasFileByte(s, a) then elf[s.offset + (a - s.vaddr)] else ByteAt(elf, arch, segs[..|segs| - 1], a)
  }

  predicate Covers(s: Seg, page: nat) { s.vaddr < page + PAGE && page < s.vaddr + s.memsz }

  /** The rights of a page: writable if some segment on it writes, executable
      if some segment on it runs. */
  ghost predicate RightsOn(segs: seq<Seg>, page: nat, p: Prot) {
    && (p.Write() <==> exists i :: 0 <= i < |segs| && Covers(segs[i], page) && segs[i].prot.Write())
    && (p.Exec() <==> exists i :: 0 <= i < |segs| && Covers(segs[i], page) && segs[i].prot.Exec())
  }

  // ---- the pages -----------------------------------------------------------------------------

  predicate Earlier(segs: seq<Seg>, si: nat, page: nat) {
    exists i :: 0 <= i < si && i < |segs| && Covers(segs[i], page)
  }

  /** The pages segment `si` is the first to reach, from `page` on. */
  function SegPages(segs: seq<Seg>, si: nat, page: nat): (r: seq<nat>)
    requires si < |segs|
    decreases segs[si].vaddr + segs[si].memsz - page
  {
    if page >= segs[si].vaddr + segs[si].memsz then []
    else (if Earlier(segs, si, page) then [] else [page]) + SegPages(segs, si, page + PAGE)
  }

  /** The pages of segments `si` on, in the order they are walked. */
  function PagesFrom(segs: seq<Seg>, si: nat): (r: seq<nat>)
    requires si <= |segs|
    decreases |segs| - si
  {
    if si == |segs| then [] else SegPages(segs, si, Down(segs[si].vaddr)) + PagesFrom(segs, si + 1)
  }

  lemma DownIs(a: nat, p: nat)
    requires p % PAGE == 0
    ensures Down(a) % PAGE == 0 && (Down(a) <= p <==> a < p + PAGE)
  {
  }

  lemma NextPage(a: nat, p: nat)
    requires a % PAGE == 0 && p % PAGE == 0 && a < p
    ensures a + PAGE <= p && (a + PAGE) % PAGE == 0
  {
  }

  /** Segment `si` walks exactly the pages it covers and no earlier one does. */
  lemma {:induction false} SegPagesAre(segs: seq<Seg>, si: nat, page: nat, p: nat)
    requires si < |segs| && page % PAGE == 0
    ensures p in SegPages(segs, si, page) <==>
              p % PAGE == 0 && page <= p < segs[si].vaddr + segs[si].memsz && !Earlier(segs, si, p)
    decreases segs[si].vaddr + segs[si].memsz - page
  {
    if page < segs[si].vaddr + segs[si].memsz {
      SegPagesAre(segs, si, page + PAGE, p);
      if p % PAGE == 0 && page < p { NextPage(page, p); }
    }
  }

  lemma FirstPages(segs: seq<Seg>, si: nat, p: nat)
    requires si < |segs|
    ensures p in SegPages(segs, si, Down(segs[si].vaddr)) <==>
              p % PAGE == 0 && Covers(segs[si], p) && !Earlier(segs, si, p)
  {
    DownIs(segs[si].vaddr, 0);
    if p % PAGE == 0 { DownIs(segs[si].vaddr, p); }
    SegPagesAre(segs, si, Down(segs[si].vaddr), p);
  }

  /** The whole walk reaches exactly the pages some segment covers. */
  lemma {:induction false} PagesFromAre(segs: seq<Seg>, si: nat, p: nat)
    requires si <= |segs|
    ensures p in PagesFrom(segs, si) <==> p % PAGE == 0 && !Earlier(segs, si, p) && Earlier(segs, |segs|, p)
    decreases |segs| - si
  {
    hide SegPages, Earlier, Covers;
    if si < |segs| {
      PagesFromAre(segs, si + 1, p);
      FirstPages(segs, si, p);
      EarlierMore(segs, si, p);
    }
  }

  lemma EarlierMore(segs: seq<Seg>, si: nat, p: nat)
    requires si < |segs|
    ensures Earlier(segs, si + 1, p) <==> Earlier(segs, si, p) || Covers(segs[si], p)
    ensures Earlier(segs, si + 1, p) ==> Earlier(segs, |segs|, p)
  {
  }

  ghost predicate NoneTwice(s: seq<nat>) { forall i, j | 0 <= i < j < |s| :: s[i] != s[j] }

  lemma {:induction false} SegPagesOnce(segs: seq<Seg>, si: nat, page: nat)
    requires si < |segs| && page % PAGE == 0
    ensures NoneTwice(SegPages(segs, si, page))
    decreases segs[si].vaddr + segs[si].memsz - page
  {
    if page < segs[si].vaddr + segs[si].memsz {
      SegPagesOnce(segs, si, page + PAGE);
      SegPagesAre(segs, si, page + PAGE, page);
    }
  }

  /** And no page twice. */
  lemma {:induction false} PagesFromOnce(segs: seq<Seg>, si: nat)
    requires si <= |segs|
    ensures NoneTwice(PagesFrom(segs, si))
    decreases |segs| - si
  {
    if si < |segs| {
      var a, b := SegPages(segs, si, Down(segs[si].vaddr)), PagesFrom(segs, si + 1);
      DownIs(segs[si].vaddr, 0);
      SegPagesOnce(segs, si, Down(segs[si].vaddr));
      PagesFromOnce(segs, si + 1);
      forall i, j | 0 <= i < |a| && 0 <= j < |b| ensures a[i] != b[j] {
        FirstPages(segs, si, a[i]);
        PagesFromAre(segs, si + 1, a[i]);
        EarlierMore(segs, si, a[i]);
      }
    }
  }
}
