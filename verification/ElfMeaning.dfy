/** What the program headers of a file ask for, address by address. */
module ElfMeaning {
  import opened Bytes
  import opened Wrappers
  import opened Words
  import opened Paging
  import opened ElfImage

  // ---- the file's own words ---------------------------------------------------------------

  /** Program header `i` is loadable and its memory reaches the page. */
  predicate LoadsOn(elf: File, arch: Arch, h: Header, i: nat, page: nat)
    requires TableOk(elf, arch, h) && i < h.phnum
  {
    var p := PhdrAt(elf, arch, h, i);
    p.kind == 1 && p.vaddr < page + 4096 && page < p.vaddr + p.memsz
  }

  /** Among the first `n` program headers, one on the page has bit 1 of its flags
      word set, PF_W. */
  ghost predicate AsksToWrite(elf: File, arch: Arch, h: Header, n: nat, page: nat)
    requires TableOk(elf, arch, h) && n <= h.phnum
  {
    exists i: nat :: i < n && LoadsOn(elf, arch, h, i, page) && PhdrAt(elf, arch, h, i).flags / 2 % 2 == 1
  }

  /** One has bit 0 set, PF_X. */
  ghost predicate AsksToRun(elf: File, arch: Arch, h: Header, n: nat, page: nat)
    requires TableOk(elf, arch, h) && n <= h.phnum
  {
    exists i: nat :: i < n && LoadsOn(elf, arch, h, i, page) && PhdrAt(elf, arch, h, i).flags % 2 == 1
  }

  /** The address is among those of loadable header `i`. */
  predicate AddressIn(elf: File, arch: Arch, h: Header, i: nat, a: nat)
    requires TableOk(elf, arch, h) && i < h.phnum
  {
    var p := PhdrAt(elf, arch, h, i); p.kind == 1 && p.vaddr <= a < p.vaddr + p.memsz
  }

  /** And the file has a byte for it. */
  predicate FileByteIn(elf: File, arch: Arch, h: Header, i: nat, a: nat)
    requires TableOk(elf, arch, h) && i < h.phnum
  {
    var p := PhdrAt(elf, arch, h, i); p.kind == 1 && p.vaddr <= a < p.vaddr + p.filesz
  }

  /** The first `n` headers ask for byte `b` at address `a`: it is that of the
      last header with a byte for the address, and zero if there is none. */
  ghost predicate AsksFor(elf: File, arch: Arch, h: Header, n: nat, a: nat, b: Byte)
    requires TableOk(elf, arch, h) && n <= h.phnum
  {
    || (b == 0 && forall i: nat | i < n :: !FileByteIn(elf, arch, h, i, a))
    || (exists i: nat :: IsLast(elf, arch, h, n, a, i) && ByteFrom(elf, arch, h, i, a, b))
  }

  ghost predicate IsLast(elf: File, arch: Arch, h: Header, n: nat, a: nat, i: nat)
    requires TableOk(elf, arch, h) && n <= h.phnum
  {
    i < n && FileByteIn(elf, arch, h, i, a) && forall j: nat | i < j < n :: !FileByteIn(elf, arch, h, j, a)
  }

  predicate ByteFrom(elf: File, arch: Arch, h: Header, i: nat, a: nat, b: Byte)
    requires TableOk(elf, arch, h) && i < h.phnum
  {
    var p := PhdrAt(elf, arch, h, i);
    p.vaddr <= a && p.offset + (a - p.vaddr) < |elf| && b == elf[p.offset + (a - p.vaddr)]
  }

  /** How many of the first `n` headers are loadable. */
  function Loadable(elf: File, arch: Arch, h: Header, n: nat): (k: nat)
    requires TableOk(elf, arch, h) && n <= h.phnum
  {
    if n == 0 then 0 else Loadable(elf, arch, h, n - 1) + if PhdrAt(elf, arch, h, n - 1).kind == 1 then 1 else 0
  }

  /** Memory in the user half, file bytes inside the file, and no more of these
      than of the memory. */
  predicate Sensible(elf: File, arch: Arch, p: Phdr) {
    p.vaddr + p.memsz <= arch.physOffset && p.offset + p.filesz <= |elf| && p.filesz <= p.memsz
  }

  /** A header with memory is on a page exactly if one of its addresses is. One
      without is on the page it points into the middle of. */
  lemma OnPageExactly(elf: File, arch: Arch, h: Header, i: nat, page: nat)
    requires TableOk(elf, arch, h) && i < h.phnum && page % 4096 == 0 && PhdrAt(elf, arch, h, i).kind == 1
    ensures var p := PhdrAt(elf, arch, h, i);
            LoadsOn(elf, arch, h, i, page) <==>
              if p.memsz == 0 then page < p.vaddr < page + 4096
              else exists a: nat :: AddressIn(elf, arch, h, i, a) && page <= a < page + 4096
  {
    hide PhdrAt;
    var p := PhdrAt(elf, arch, h, i);
    if LoadsOn(elf, arch, h, i, page) && p.memsz != 0 {
      var a: nat := if p.vaddr < page then page else p.vaddr;
      assert AddressIn(elf, arch, h, i, a) && page <= a < page + 4096;
    }
  }

  // ---- the segments say the same --------------------------------------------------------------

  lemma FlagRights(flags: nat)
    ensures Rights(flags).Write() <==> flags / 2 % 2 == 1
    ensures Rights(flags).Exec() <==> flags % 2 == 1
  {
  }

  ghost predicate SomeWrites(segs: seq<Seg>, page: nat) {
    exists i :: 0 <= i < |segs| && Covers(segs[i], page) && segs[i].prot.Write()
  }

  ghost predicate SomeRuns(segs: seq<Seg>, page: nat) {
    exists i :: 0 <= i < |segs| && Covers(segs[i], page) && segs[i].prot.Exec()
  }

  lemma SomeMore(segs: seq<Seg>, s: Seg, page: nat)
    ensures SomeWrites(segs + [s], page) <==> SomeWrites(segs, page) || (Covers(s, page) && s.prot.Write())
    ensures SomeRuns(segs + [s], page) <==> SomeRuns(segs, page) || (Covers(s, page) && s.prot.Exec())
  {
    var t := segs + [s];
    assert t[|segs|] == s && forall i | 0 <= i < |segs| :: t[i] == segs[i];
  }

  lemma AsksMore(elf: File, arch: Arch, h: Header, n: nat, page: nat)
    requires TableOk(elf, arch, h) && n < h.phnum
    ensures AsksToWrite(elf, arch, h, n + 1, page) <==>
              AsksToWrite(elf, arch, h, n, page)
              || (LoadsOn(elf, arch, h, n, page) && PhdrAt(elf, arch, h, n).flags / 2 % 2 == 1)
    ensures AsksToRun(elf, arch, h, n + 1, page) <==>
              AsksToRun(elf, arch, h, n, page)
              || (LoadsOn(elf, arch, h, n, page) && PhdrAt(elf, arch, h, n).flags % 2 == 1)
  {
    hide PhdrAt;
  }

  lemma {:induction false} SegmentsRights(elf: File, arch: Arch, h: Header, n: nat, page: nat)
    requires TableOk(elf, arch, h) && n <= h.phnum && Segments(elf, arch, h, n).Some?
    ensures SomeWrites(Segments(elf, arch, h, n).value, page) <==> AsksToWrite(elf, arch, h, n, page)
    ensures SomeRuns(Segments(elf, arch, h, n).value, page) <==> AsksToRun(elf, arch, h, n, page)
  {
    hide PhdrAt, AsksToWrite, AsksToRun, SomeWrites, SomeRuns, Rights;
    if n == 0 {
      NoneAsk(elf, arch, h, page);
    } else {
      SegmentsRights(elf, arch, h, n - 1, page);
      AsksMore(elf, arch, h, n - 1, page);
      var p := PhdrAt(elf, arch, h, n - 1);
      if p.kind == PT_LOAD {
        FlagRights(p.flags);
        SomeMore(Segments(elf, arch, h, n - 1).value, Seg(p.vaddr, p.offset, p.filesz, p.memsz, Rights(p.flags)), page);
      }
    }
  }

  lemma NoneAsk(elf: File, arch: Arch, h: Header, page: nat)
    requires TableOk(elf, arch, h)
    ensures !AsksToWrite(elf, arch, h, 0, page) && !AsksToRun(elf, arch, h, 0, page)
    ensures !SomeWrites([], page) && !SomeRuns([], page)
  {
  }

  /** A page with the rights of its segments has those its headers ask for. */
  lemma RightsAsked(elf: File, arch: Arch, h: Header, page: nat, p: Prot)
    requires TableOk(elf, arch, h) && Segments(elf, arch, h, h.phnum).Some?
    requires RightsOn(Segments(elf, arch, h, h.phnum).value, page, p)
    ensures p.Write() <==> AsksToWrite(elf, arch, h, h.phnum, page)
    ensures p.Exec() <==> AsksToRun(elf, arch, h, h.phnum, page)
  {
    SegmentsRights(elf, arch, h, h.phnum, page);
  }

  lemma {:induction false} BytesAsked(elf: File, arch: Arch, h: Header, n: nat, a: nat)
    requires TableOk(elf, arch, h) && n <= h.phnum && Segments(elf, arch, h, n).Some?
    requires AllInside(elf, arch, Segments(elf, arch, h, n).value)
    ensures AsksFor(elf, arch, h, n, a, ByteAt(elf, arch, Segments(elf, arch, h, n).value, a))
  {
    hide PhdrAt, Rights;
    if n > 0 {
      SegmentsInside(elf, arch, h, n - 1);
      BytesAsked(elf, arch, h, n - 1, a);
      var p, segs := PhdrAt(elf, arch, h, n - 1), Segments(elf, arch, h, n).value;
      if p.kind == PT_LOAD { assert segs[..|segs| - 1] == Segments(elf, arch, h, n - 1).value; }
      if FileByteIn(elf, arch, h, n - 1, a) {
        assert IsLast(elf, arch, h, n, a, n - 1);
        assert ByteFrom(elf, arch, h, n - 1, a, ByteAt(elf, arch, segs, a));
      } else {
        AsksForMore(elf, arch, h, n - 1, a, ByteAt(elf, arch, Segments(elf, arch, h, n - 1).value, a));
      }
    }
  }

  lemma AsksForMore(elf: File, arch: Arch, h: Header, n: nat, a: nat, b: Byte)
    requires TableOk(elf, arch, h) && n < h.phnum && AsksFor(elf, arch, h, n, a, b)
    requires !FileByteIn(elf, arch, h, n, a)
    ensures AsksFor(elf, arch, h, n + 1, a, b)
  {
    hide PhdrAt, FileByteIn, ByteFrom;
    if !(b == 0 && forall i: nat | i < n :: !FileByteIn(elf, arch, h, i, a)) {
      var i: nat :| IsLast(elf, arch, h, n, a, i) && ByteFrom(elf, arch, h, i, a, b);
      assert IsLast(elf, arch, h, n + 1, a, i);
    }
  }

  /** Every address of a loadable header is one of a segment. */
  lemma {:induction false} HeaderIsSegment(elf: File, arch: Arch, h: Header, n: nat, i: nat) returns (k: nat)
    requires TableOk(elf, arch, h) && i < n <= h.phnum && Segments(elf, arch, h, n).Some?
    requires PhdrAt(elf, arch, h, i).kind == 1
    ensures var segs, p := Segments(elf, arch, h, n).value, PhdrAt(elf, arch, h, i);
            && k < |segs| && segs[k].vaddr == p.vaddr && segs[k].memsz == p.memsz
            && segs[k].offset == p.offset && segs[k].filesz == p.filesz
  {
    hide PhdrAt, Rights;
    if i == n - 1 {
      k := |Segments(elf, arch, h, n).value| - 1;
    } else {
      k := HeaderIsSegment(elf, arch, h, n - 1, i);
    }
  }

  lemma {:induction false} SegmentIsHeader(elf: File, arch: Arch, h: Header, n: nat, k: nat) returns (i: nat)
    requires TableOk(elf, arch, h) && n <= h.phnum && Segments(elf, arch, h, n).Some?
    requires k < |Segments(elf, arch, h, n).value|
    ensures i < n && PhdrAt(elf, arch, h, i).kind == 1
    ensures var s, p := Segments(elf, arch, h, n).value[k], PhdrAt(elf, arch, h, i);
            s.vaddr == p.vaddr && s.memsz == p.memsz
  {
    hide PhdrAt, Rights;
    var last := PhdrAt(elf, arch, h, n - 1).kind == PT_LOAD;
    if last && k == |Segments(elf, arch, h, n).value| - 1 {
      i := n - 1;
    } else {
      i := SegmentIsHeader(elf, arch, h, n - 1, k);
    }
  }

  /** The table of program headers is accepted exactly if its entries are large
      enough, there is one, all lie in the file, and the entry point is in the
      user half. */
  lemma TableExactly(elf: File, arch: Arch, h: Header)
    requires |elf| < WORD
    ensures TableOk(elf, arch, h) <==>
              && (if h.class32 then 32 else 56) <= h.phentsize && 0 < h.phnum
              && h.phoff + h.phnum * h.phentsize <= |elf| && h.entry < arch.physOffset
  {
  }

  /** The segments are accepted exactly if every loadable header is sensible and
      there are at most 16. */
  lemma {:induction false} AcceptedExactly(elf: File, arch: Arch, h: Header, n: nat)
    requires TableOk(elf, arch, h) && n <= h.phnum && Sane(arch) && |elf| < WORD
    ensures Segments(elf, arch, h, n).Some? <==>
              && Loadable(elf, arch, h, n) <= 16
              && forall i: nat | i < n && PhdrAt(elf, arch, h, i).kind == 1 ::
                   Sensible(elf, arch, PhdrAt(elf, arch, h, i))
    ensures Segments(elf, arch, h, n).Some? ==> |Segments(elf, arch, h, n).value| == Loadable(elf, arch, h, n)
  {
    hide PhdrAt, Rights;
    if n > 0 { AcceptedExactly(elf, arch, h, n - 1); }
  }
}
