/** An ELF file header and program header as the System V ABI lays them out, and
    that the loader reads them back. */
module ElfFormat {
  import opened Bytes
  import opened Wrappers
  import opened Words
  import opened ElfImage

  /** How many values `k` bytes hold. */
  function Top(k: nat): (t: nat) { if k == 2 then 0x1_0000 else if k == 4 then 0x1_0000_0000 else WORD }

  /** `n` in 2, 4 or 8 bytes, the lowest first. */
  function Le(n: nat, k: nat): (b: File)
    requires k == 2 || k == 4 || k == 8
    ensures |b| == k
  {
    if k == 2 then [n % 256, n / 256 % 256] else Le(n % Top(k / 2), k / 2) + Le(n / Top(k / 2), k / 2)
  }

  /** Fields one after the other. */
  function Joined(fields: seq<File>): (b: File) {
    if fields == [] then [] else Joined(fields[..|fields| - 1]) + fields[|fields| - 1]
  }

  /** Where field `i` begins. */
  function At(fields: seq<File>, i: nat): (o: nat)
    requires i <= |fields|
  {
    if i == 0 then 0 else At(fields, i - 1) + |fields[i - 1]|
  }

  lemma {:induction false} AtPrefix(fields: seq<File>, n: nat, i: nat)
    requires i <= n <= |fields|
    ensures At(fields[..n], i) == At(fields, i)
  {
    if i > 0 { AtPrefix(fields, n, i - 1); }
  }

  lemma {:induction false} JoinedLength(fields: seq<File>)
    ensures |Joined(fields)| == At(fields, |fields|)
  {
    if fields != [] {
      JoinedLength(fields[..|fields| - 1]);
      AtPrefix(fields, |fields| - 1, |fields| - 1);
    }
  }

  /** A field is where it should be. */
  lemma {:induction false} FieldIs(fields: seq<File>, i: nat)
    requires i < |fields|
    ensures At(fields, i) + |fields[i]| <= |Joined(fields)|
    ensures Joined(fields)[At(fields, i)..At(fields, i) + |fields[i]|] == fields[i]
  {
    var n := |fields| - 1;
    var front := fields[..n];
    JoinedLength(front);
    AtPrefix(fields, n, if i < n then i else n);
    if i < n {
      FieldIs(front, i);
      assert Joined(fields)[..|Joined(front)|] == Joined(front);
    }
  }

  lemma Le2(n: nat)
    requires n < 0x1_0000
    ensures U16(Le(n, 2), 0) == n
  {
  }

  lemma Le4(n: nat)
    requires n < 0x1_0000_0000
    ensures U32(Le(n, 4), 0) == n
  {
    hide U16;
    var a, b := Le(n % 0x1_0000, 2), Le(n / 0x1_0000, 2);
    Le2(n % 0x1_0000);
    Le2(n / 0x1_0000);
    assert Le(n, 4) == a + b;
    SameU16(a + b, 0, a);
    SameU16(a + b, 2, b);
  }

  lemma Le8(n: nat)
    requires n < WORD
    ensures U64(Le(n, 8), 0) == n
  {
    hide U32;
    var a, b := Le(n % 0x1_0000_0000, 4), Le(n / 0x1_0000_0000, 4);
    Le4(n % 0x1_0000_0000);
    Le4(n / 0x1_0000_0000);
    assert Le(n, 8) == a + b;
    SameU32(a + b, 0, a);
    SameU32(a + b, 4, b);
  }

  /** A number depends on its own bytes alone. */
  lemma SameU32(b: File, o: nat, f: File)
    requires o + 4 <= |b| && |f| == 4 && b[o..o + 4] == f
    ensures U32(b, o) == U32(f, 0)
  {
    assert forall k | 0 <= k < 4 :: b[o + k] == f[k];
  }

  lemma SameU16(b: File, o: nat, f: File)
    requires o + 2 <= |b| && |f| == 2 && b[o..o + 2] == f
    ensures U16(b, o) == U16(f, 0)
  {
    assert forall k | 0 <= k < 2 :: b[o + k] == f[k];
  }

  lemma SameU64(b: File, o: nat, f: File)
    requires o + 8 <= |b| && |f| == 8 && b[o..o + 8] == f
    ensures U64(b, o) == U64(f, 0)
  {
    assert forall k | 0 <= k < 8 :: b[o + k] == f[k];
  }

  // ---- reading a field ---------------------------------------------------------------------

  /** Field `i`, which begins at `o`, holds `n` in `k` bytes. */
  ghost predicate HoldsField(fields: seq<File>, i: nat, o: nat, n: nat, k: nat) {
    i < |fields| && At(fields, i) == o && (k == 2 || k == 4 || k == 8) && fields[i] == Le(n, k)
  }

  lemma Reads2(fields: seq<File>, rest: File, i: nat, o: nat, n: nat)
    requires HoldsField(fields, i, o, n, 2) && n < 0x1_0000
    ensures o + 2 <= |Joined(fields)| && U16(Joined(fields) + rest, o) == n
  {
    FieldIs(fields, i);
    Le2(n);
    SameU16(Joined(fields) + rest, o, Le(n, 2));
  }

  lemma Reads4(fields: seq<File>, rest: File, i: nat, o: nat, n: nat)
    requires HoldsField(fields, i, o, n, 4) && n < 0x1_0000_0000
    ensures o + 4 <= |Joined(fields)| && U32(Joined(fields) + rest, o) == n
  {
    FieldIs(fields, i);
    Le4(n);
    SameU32(Joined(fields) + rest, o, Le(n, 4));
  }

  lemma Reads8(fields: seq<File>, rest: File, i: nat, o: nat, n: nat)
    requires HoldsField(fields, i, o, n, 8) && n < WORD
    ensures o + 8 <= |Joined(fields)| && U64(Joined(fields) + rest, o) == n
  {
    FieldIs(fields, i);
    Le8(n);
    SameU64(Joined(fields) + rest, o, Le(n, 8));
  }

  // ---- program headers ------------------------------------------------------------------------

  /** The members of Elf32_Phdr and Elf64_Phdr, in their order. */
  function PhdrFields(class32: bool, p: Phdr, paddr: nat, align: nat): (fs: seq<File>) {
    if class32 then
      [Le(p.kind, 4), Le(p.offset, 4), Le(p.vaddr, 4), Le(paddr, 4), Le(p.filesz, 4), Le(p.memsz, 4), Le(p.flags, 4),
       Le(align, 4)]
    else
      [Le(p.kind, 4), Le(p.flags, 4), Le(p.offset, 8), Le(p.vaddr, 8), Le(paddr, 8), Le(p.filesz, 8), Le(p.memsz, 8),
       Le(align, 8)]
  }

  predicate PhdrFits(class32: bool, p: Phdr) {
    var top := if class32 then 0x1_0000_0000 else WORD;
    && p.kind < 0x1_0000_0000 && p.flags < 0x1_0000_0000
    && p.offset < top && p.vaddr < top && p.filesz < top && p.memsz < top
  }

  /** Where the members of the two layouts begin. */
  lemma PhdrPlaces(class32: bool, p: Phdr, paddr: nat, align: nat)
    ensures var fs := PhdrFields(class32, p, paddr, align);
            |fs| == 8 &&
            if class32 then forall i: nat | i <= 8 :: At(fs, i) == 4 * i
            else At(fs, 0) == 0 && At(fs, 1) == 4 && forall i: nat | 2 <= i <= 8 :: At(fs, i) == 8 * (i - 1)
  {
    var fs := PhdrFields(class32, p, paddr, align);
    assert At(fs, 0) == 0 && At(fs, 1) == 4;
    assert At(fs, 2) == At(fs, 1) + |fs[1]| && At(fs, 3) == At(fs, 2) + |fs[2]| && At(fs, 4) == At(fs, 3) + |fs[3]|;
    assert At(fs, 5) == At(fs, 4) + |fs[4]| && At(fs, 6) == At(fs, 5) + |fs[5]| && At(fs, 7) == At(fs, 6) + |fs[6]|;
    assert At(fs, 8) == At(fs, 7) + |fs[7]|;
    forall i: nat | class32 && i <= 8 ensures At(fs, i) == 4 * i { SmallIndex(i); }
    forall i: nat | !class32 && 2 <= i <= 8 ensures At(fs, i) == 8 * (i - 1) { SmallIndex(i); }
  }

  lemma SmallIndex(i: nat)
    requires i <= 8
    ensures i == 0 || i == 1 || i == 2 || i == 3 || i == 4 || i == 5 || i == 6 || i == 7 || i == 8
  {
  }

  /** A program header written out is read back, whatever follows it. */
  lemma PhdrRoundTrip(class32: bool, p: Phdr, paddr: nat, align: nat, rest: File)
    requires PhdrFits(class32, p)
    ensures var b := Joined(PhdrFields(class32, p, paddr, align));
            |b| == PhentMin(class32) && ParsePhdr(b + rest, class32) == p
  {
    hide Le, Joined, U32, U64;
    var fs := PhdrFields(class32, p, paddr, align);
    PhdrPlaces(class32, p, paddr, align);
    JoinedLength(fs);
    Reads4(fs, rest, 0, 0, p.kind);
    if class32 {
      Reads4(fs, rest, 1, 4, p.offset);
      Reads4(fs, rest, 2, 8, p.vaddr);
      Reads4(fs, rest, 4, 16, p.filesz);
      Reads4(fs, rest, 5, 20, p.memsz);
      Reads4(fs, rest, 6, 24, p.flags);
    } else {
      Reads4(fs, rest, 1, 4, p.flags);
      Reads8(fs, rest, 2, 8, p.offset);
      Reads8(fs, rest, 3, 16, p.vaddr);
      Reads8(fs, rest, 5, 32, p.filesz);
      Reads8(fs, rest, 6, 40, p.memsz);
    }
  }

  // ---- the file header ----------------------------------------------------------------------------

  /** What the loader does not look at. */
  datatype Unread = Unread(ident: seq<Byte>, version: nat, shoff: nat, flags: nat, ehsize: nat, shentsize: nat,
                           shnum: nat, shstrndx: nat)

  /** The members of Elf32_Ehdr and Elf64_Ehdr, in their order. */
  function HeaderFields(h: Header, machine: nat, u: Unread): (fs: seq<File>)
    requires |u.ident| == 10
  {
    var w := if h.class32 then 4 else 8;
    [[0x7F, 0x45, 0x4C, 0x46, if h.class32 then 1 else 2, 1] + u.ident, Le(2, 2), Le(machine, 2), Le(u.version, 4),
     Le(h.entry, w), Le(h.phoff, w), Le(u.shoff, w), Le(u.flags, 4), Le(u.ehsize, 2), Le(h.phentsize, 2),
     Le(h.phnum, 2), Le(u.shentsize, 2), Le(u.shnum, 2), Le(u.shstrndx, 2)]
  }

  predicate HeaderFits(h: Header) {
    var top := if h.class32 then 0x1_0000_0000 else WORD;
    h.entry < top && h.phoff < top && h.phentsize < 0x1_0000 && h.phnum < 0x1_0000
  }

  lemma HeaderPlaces(h: Header, machine: nat, u: Unread)
    requires |u.ident| == 10
    ensures var fs, w := HeaderFields(h, machine, u), if h.class32 then 4 else 8;
            && |fs| == 14 && At(fs, 0) == 0 && At(fs, 1) == 16 && At(fs, 2) == 18 && At(fs, 4) == 24
            && At(fs, 5) == 24 + w && At(fs, 9) == 30 + 3 * w && At(fs, 10) == 32 + 3 * w && At(fs, 14) == 40 + 3 * w
  {
    var fs := HeaderFields(h, machine, u);
    assert At(fs, 0) == 0 && At(fs, 1) == 16;
    assert At(fs, 2) == At(fs, 1) + |fs[1]| && At(fs, 3) == At(fs, 2) + |fs[2]| && At(fs, 4) == At(fs, 3) + |fs[3]|;
    assert At(fs, 5) == At(fs, 4) + |fs[4]| && At(fs, 6) == At(fs, 5) + |fs[5]| && At(fs, 7) == At(fs, 6) + |fs[6]|;
    assert At(fs, 8) == At(fs, 7) + |fs[7]| && At(fs, 9) == At(fs, 8) + |fs[8]| && At(fs, 10) == At(fs, 9) + |fs[9]|;
    assert At(fs, 11) == At(fs, 10) + |fs[10]| && At(fs, 12) == At(fs, 11) + |fs[11]|
           && At(fs, 13) == At(fs, 12) + |fs[12]|;
    assert At(fs, 14) == At(fs, 13) + |fs[13]|;
  }

  lemma IdentIs(h: Header, machine: nat, u: Unread, rest: File)
    requires |u.ident| == 10
    ensures var b := Joined(HeaderFields(h, machine, u)) + rest;
            && |b| >= 16 && b[0] == 0x7F && b[1] == 0x45 && b[2] == 0x4C && b[3] == 0x46
            && b[4] == (if h.class32 then 1 else 2) && b[5] == 1
  {
    hide Joined, Le;
    var fs := HeaderFields(h, machine, u);
    FieldIs(fs, 0);
    assert forall k | 0 <= k < 6 :: Joined(fs)[k] == fs[0][k];
  }

  /** A header written out for the right machine passes the checks and is read
      back, whatever follows it. */
  lemma HeaderRoundTrip(h: Header, arch: Arch, u: Unread, rest: File)
    requires HeaderFits(h) && |u.ident| == 10 && arch.machine < 0x1_0000 && (h.class32 <==> arch.machine == EM_386)
    ensures var b := Joined(HeaderFields(h, arch.machine, u)) + rest;
            HeaderOk(b, arch) && ParseHeader(b, arch.machine) == Some(h)
  {
    hide Joined, Le, U16, U32, U64;
    var fs, w := HeaderFields(h, arch.machine, u), if h.class32 then 4 else 8;
    HeaderPlaces(h, arch.machine, u);
    IdentIs(h, arch.machine, u, rest);
    JoinedLength(fs);
    Reads2(fs, rest, 1, 16, 2);
    Reads2(fs, rest, 2, 18, arch.machine);
    Reads2(fs, rest, 9, 30 + 3 * w, h.phentsize);
    Reads2(fs, rest, 10, 32 + 3 * w, h.phnum);
    if h.class32 {
      Reads4(fs, rest, 4, 24, h.entry);
      Reads4(fs, rest, 5, 28, h.phoff);
    } else {
      Reads8(fs, rest, 4, 24, h.entry);
      Reads8(fs, rest, 5, 32, h.phoff);
    }
  }

  lemma HeaderLength(h: Header, machine: nat, u: Unread)
    requires |u.ident| == 10
    ensures |Joined(HeaderFields(h, machine, u))| == if h.class32 then ELF32_HEADER else ELF64_HEADER
  {
    hide Joined, Le;
    HeaderPlaces(h, machine, u);
    JoinedLength(HeaderFields(h, machine, u));
  }

  // ---- only such files are accepted ----------------------------------------------------------------

  lemma Slice2(b: File, o: nat)
    requires o + 2 <= |b|
    ensures Le(U16(b, o), 2) == b[o..o + 2]
  {
  }

  lemma Slice4(b: File, o: nat)
    requires o + 4 <= |b|
    ensures Le(U32(b, o), 4) == b[o..o + 4]
  {
    hide U16;
    Slice2(b, o);
    Slice2(b, o + 2);
    Halves2(U16(b, o), U16(b, o + 2));
    assert b[o..o + 4] == b[o..o + 2] + b[o + 2..o + 4];
  }

  lemma Slice8(b: File, o: nat)
    requires o + 8 <= |b|
    ensures Le(U64(b, o), 8) == b[o..o + 8]
  {
    hide U32;
    Slice4(b, o);
    Slice4(b, o + 4);
    Halves4(U32(b, o), U32(b, o + 4));
    assert b[o..o + 8] == b[o..o + 4] + b[o + 4..o + 8];
  }

  lemma Halves2(x: nat, y: nat)
    requires x < 0x1_0000
    ensures (x + 0x1_0000 * y) % 0x1_0000 == x && (x + 0x1_0000 * y) / 0x1_0000 == y
  {
  }

  lemma Halves4(x: nat, y: nat)
    requires x < 0x1_0000_0000
    ensures (x + 0x1_0000_0000 * y) % 0x1_0000_0000 == x && (x + 0x1_0000_0000 * y) / 0x1_0000_0000 == y
  {
  }

  /** Slice `i` of the file is field `i`. */
  ghost predicate Slices(b: File, fields: seq<File>) {
    && At(fields, |fields|) <= |b|
    && forall i: nat | i < |fields| :: SliceIs(b, fields, i)
  }

  ghost predicate SliceIs(b: File, fields: seq<File>, i: nat)
    requires i < |fields|
  {
    At(fields, i) + |fields[i]| <= |b| && fields[i] == b[At(fields, i)..At(fields, i) + |fields[i]|]
  }

  lemma {:induction false} SlicesJoin(b: File, fields: seq<File>)
    requires Slices(b, fields)
    ensures Joined(fields) == b[..At(fields, |fields|)]
  {
    if fields != [] {
      var n := |fields| - 1;
      var front := fields[..n];
      AtPrefix(fields, n, n);
      forall i: nat | i < n ensures SliceIs(b, front, i) {
        AtPrefix(fields, n, i);
        assert SliceIs(b, fields, i);
      }
      SlicesJoin(b, front);
      assert SliceIs(b, fields, n);
    }
  }

  /** What a header leaves unread, taken from the file. */
  function UnreadOf(b: File, class32: bool): (u: Unread)
    requires |b| >= if class32 then 52 else 64
    ensures |u.ident| == 10
  {
    var w := if class32 then 4 else 8;
    var o := 24 + 3 * w;
    Unread(b[6..16], U32(b, 20), if class32 then U32(b, 32) else U64(b, 40), U32(b, o), U16(b, o + 4), U16(b, o + 10),
           U16(b, o + 12), U16(b, o + 14))
  }

  lemma HeaderAllPlaces(h: Header, machine: nat, u: Unread)
    requires |u.ident| == 10
    ensures var fs, w := HeaderFields(h, machine, u), if h.class32 then 4 else 8;
            && |fs| == 14 && At(fs, 0) == 0 && At(fs, 1) == 16 && At(fs, 2) == 18 && At(fs, 3) == 20 && At(fs, 4) == 24
            && At(fs, 5) == 24 + w && At(fs, 6) == 24 + 2 * w && At(fs, 7) == 24 + 3 * w && At(fs, 8) == 28 + 3 * w
            && At(fs, 9) == 30 + 3 * w && At(fs, 10) == 32 + 3 * w && At(fs, 11) == 34 + 3 * w
            && At(fs, 12) == 36 + 3 * w && At(fs, 13) == 38 + 3 * w && At(fs, 14) == 40 + 3 * w
  {
    hide Le;
    HeaderPlaces(h, machine, u);
    var fs := HeaderFields(h, machine, u);
    assert At(fs, 3) == At(fs, 2) + |fs[2]|;
    assert At(fs, 6) == At(fs, 5) + |fs[5]|;
    assert At(fs, 7) == At(fs, 6) + |fs[6]|;
    assert At(fs, 8) == At(fs, 7) + |fs[7]|;
    assert At(fs, 11) == At(fs, 10) + |fs[10]|;
    assert At(fs, 12) == At(fs, 11) + |fs[11]|;
    assert At(fs, 13) == At(fs, 12) + |fs[12]|;
  }

  lemma FrontSlices(b: File, arch: Arch, h: Header)
    requires HeaderOk(b, arch) && ParseHeader(b, arch.machine) == Some(h)
    ensures var fs := HeaderFields(h, arch.machine, UnreadOf(b, h.class32));
            |fs| == 14 && forall i: nat | i < 7 :: SliceIs(b, fs, i)
  {
    hide Le, At, U16, U32, U64;
    var u := UnreadOf(b, h.class32);
    var fs := HeaderFields(h, arch.machine, u);
    HeaderAllPlaces(h, arch.machine, u);
    Slice2(b, 16);
    Slice2(b, 18);
    Slice4(b, 20);
    if h.class32 {
      Slice4(b, 24);
      Slice4(b, 28);
      Slice4(b, 32);
    } else {
      Slice8(b, 24);
      Slice8(b, 32);
      Slice8(b, 40);
    }
    assert SliceIs(b, fs, 0) && SliceIs(b, fs, 1) && SliceIs(b, fs, 2) && SliceIs(b, fs, 3);
    assert SliceIs(b, fs, 4) && SliceIs(b, fs, 5) && SliceIs(b, fs, 6);
    forall i: nat | i < 7 ensures SliceIs(b, fs, i) { SmallIndex(i); }
  }

  lemma BackSlices(b: File, arch: Arch, h: Header)
    requires HeaderOk(b, arch) && ParseHeader(b, arch.machine) == Some(h)
    ensures var fs := HeaderFields(h, arch.machine, UnreadOf(b, h.class32));
            |fs| == 14 && forall i: nat | 7 <= i < 14 :: SliceIs(b, fs, i)
  {
    hide Le, At, U16, U32, U64;
    var u := UnreadOf(b, h.class32);
    var fs, o := HeaderFields(h, arch.machine, u), if h.class32 then 36 else 48;
    HeaderAllPlaces(h, arch.machine, u);
    Slice4(b, o);
    Slice2(b, o + 4);
    Slice2(b, o + 6);
    Slice2(b, o + 8);
    Slice2(b, o + 10);
    Slice2(b, o + 12);
    Slice2(b, o + 14);
    assert SliceIs(b, fs, 7) && SliceIs(b, fs, 8) && SliceIs(b, fs, 9) && SliceIs(b, fs, 10);
    assert SliceIs(b, fs, 11) && SliceIs(b, fs, 12) && SliceIs(b, fs, 13);
    forall i: nat | 7 <= i < 14 ensures SliceIs(b, fs, i) { SmallIndex(i - 6); }
  }

  /** A file whose header is accepted begins with the header that was read, laid
      out for the right machine: nothing else passes. */
  lemma OnlyHeadersPass(b: File, arch: Arch)
    requires HeaderOk(b, arch)
    ensures var h := ParseHeader(b, arch.machine);
            && h.Some? && HeaderFits(h.value) && (h.value.class32 <==> arch.machine == 3)
            && exists u: Unread | |u.ident| == 10 :: Joined(HeaderFields(h.value, arch.machine, u)) <= b
  {
    hide Joined, Le, U16, U32, U64;
    var h := ParseHeader(b, arch.machine).value;
    var u := UnreadOf(b, h.class32);
    var fs := HeaderFields(h, arch.machine, u);
    FrontSlices(b, arch, h);
    BackSlices(b, arch, h);
    HeaderAllPlaces(h, arch.machine, u);
    forall i: nat | i < 14 ensures SliceIs(b, fs, i) { if i < 7 { assert SliceIs(b, fs, i); } }
    SlicesJoin(b, fs);
    assert Joined(fs) <= b;
  }
}
