/** The relinker's view of the PE sections: the unified sections built from
    the section headers (`parseSects`), the ELF program headers derived
    from them (`elfProgHdrs`), and the nop'ing of address ranges
    (`nopSect`). */
module Relink {
  import opened Text
  import opened Addr
  import opened Sections
  import opened Records
  import opened Gen

  const U32_MODULUS: int := 0x1_0000_0000

  // ---------------------------------------------------------------------
  // parseSects

  /** The end offset of a header's raw data, wrapping as Go's uint32 does. */
  function DataEnd(h: SectHdr): u32
  {
    (h.dataOffset + h.dataSize) % U32_MODULUS
  }

  /** Go's `Content[start:end]` does not panic. */
  predicate SliceInBounds(h: SectHdr, n: nat)
  {
    h.dataOffset <= DataEnd(h) <= n
  }

  /** The slice is in bounds exactly when the raw data lies inside the
      file and its end does not wrap around 2^32 (a wrapped end falls before
      the start). */
  lemma SliceInBoundsNoWrap(h: SectHdr, n: nat)
    ensures SliceInBounds(h, n) <==> h.dataOffset + h.dataSize <= n && h.dataOffset + h.dataSize < U32_MODULUS
  {
    if h.dataOffset + h.dataSize >= U32_MODULUS {
      assert DataEnd(h) == h.dataOffset + h.dataSize - U32_MODULUS < h.dataOffset;
    }
  }

  /** The section of one header: the header's raw data, at the image base
      plus the relative address (wrapping as Go's uint64 does), with the
      virtual size and the permissions of the header's characteristics. */
  function ParseSect(file: PEFile, h: SectHdr): (s: Section)
    requires SliceInBounds(h, |file.content|)
  {
    Section(h.name, file.content[h.dataOffset..DataEnd(h)],
      (file.imageBase + h.relAddr) % U64_MODULUS, h.virtualSize, ParsePerm(h.flags))
  }

  /** parseSects: one section per section header, in header order. */
  function ParseSects(file: PEFile): (sects: seq<Section>)
    requires forall h :: h in file.sectHdrs ==> SliceInBounds(h, |file.content|)
  {
    seq(|file.sectHdrs|, i requires 0 <= i < |file.sectHdrs| => ParseSect(file, file.sectHdrs[i]))
  }

  /** `s` is the section of header `h`: the header's name, exactly its
      `dataSize` bytes of raw data taken from `dataOffset` on, its virtual
      size, the image base plus its relative address (modulo 2^64), and the
      permission bits of its characteristics. */
  predicate SectionOfHeader(file: PEFile, h: SectHdr, s: Section)
  {
    s.name == h.name
    && h.dataOffset + h.dataSize <= |file.content|
    && |s.data| == h.dataSize
    && (forall k :: 0 <= k < h.dataSize ==> s.data[k] == file.content[h.dataOffset + k])
    && s.size == h.virtualSize
    && (s.addr == file.imageBase + h.relAddr || s.addr == file.imageBase + h.relAddr - U64_MODULUS)
    && ((s.perm & PermR != 0) <==> (h.flags & SectionFlagMemRead != 0))
    && ((s.perm & PermW != 0) <==> (h.flags & SectionFlagMemWrite != 0))
    && ((s.perm & PermX != 0) <==> (h.flags & SectionFlagMemExecute != 0))
    && s.perm & !(PermR | PermW | PermX) == 0
  }

  /** parseSects gives, in order, the section of each header. */
  lemma ParseSectsFields(file: PEFile)
    requires forall h :: h in file.sectHdrs ==> SliceInBounds(h, |file.content|)
    ensures |ParseSects(file)| == |file.sectHdrs|
    ensures forall i :: 0 <= i < |file.sectHdrs| ==>
      SectionOfHeader(file, file.sectHdrs[i], ParseSects(file)[i])
  {
    forall i | 0 <= i < |file.sectHdrs|
      ensures SectionOfHeader(file, file.sectHdrs[i], ParseSects(file)[i])
    {
      var h := file.sectHdrs[i];
      SliceInBoundsNoWrap(h, |file.content|);
      ParsePermBits(h.flags);
      ParsePermIgnoresOtherFlags(h.flags);
    }
  }

  // ---------------------------------------------------------------------
  // elfProgHdrs

  /** ELF segment types used by the relinker. */
  datatype SegmentType = PT_LOAD | PT_DYNAMIC | PT_INTERP

  /** An ELF program header as the NASM output names it: a title comment,
      the segment type, the label, the flags and the alignment. */
  datatype ProgHeader = ProgHeader(title: string, typ: SegmentType, name: string, flags: ProgFlag, align: string)

  /** The headers that are always present: interpreter, dynamic array, and
      the read-only, read-write and executable segments. */
  const FixedProgHdrs: seq<ProgHeader> := [
    ProgHeader("Interpreter program header", PT_INTERP, "interp", PF_R, "0x" + FormatHex(1)),
    ProgHeader("Dynamic array program header", PT_DYNAMIC, "dynamic", PF_R, "dynamic_align"),
    ProgHeader("Read-only segment program header", PT_LOAD, "r_seg", PF_R, "PAGE"),
    ProgHeader("Read-write segment program header", PT_LOAD, "rw_seg", PF_R | PF_W, "PAGE"),
    ProgHeader("Executable segment program header", PT_LOAD, "x_seg", PF_R | PF_X, "PAGE")
  ]

  /** The loadable segment of one section, labelled by its NASM identifier. */
  function SectProgHdr(sect: Section): ProgHeader
  {
    ProgHeader(sect.name + " segment program header", PT_LOAD, NasmIdent(sect.name), ElfProgFlag(sect.perm), "PAGE")
  }

  /** elfProgHdrs: the fixed headers, then one per section in order. */
  function ElfProgHdrs(sects: seq<Section>): seq<ProgHeader>
  {
    FixedProgHdrs + seq(|sects|, i requires 0 <= i < |sects| => SectProgHdr(sects[i]))
  }

  /** There are five headers more than sections. The fixed ones are the
      interpreter (aligned to 1), the dynamic array, and the page-aligned
      read-only, read-write and executable segments; all are readable, only
      the read-write one writable and only the executable one executable. */
  lemma ElfProgHdrsShape(sects: seq<Section>)
    ensures var hdrs := ElfProgHdrs(sects);
      |hdrs| == 5 + |sects|
      && hdrs[0].typ == PT_INTERP && hdrs[0].name == "interp" && hdrs[0].align == "0x1"
      && hdrs[1].typ == PT_DYNAMIC && hdrs[1].name == "dynamic" && hdrs[1].align == "dynamic_align"
      && hdrs[2].name == "r_seg" && hdrs[3].name == "rw_seg" && hdrs[4].name == "x_seg"
      && (forall k :: 2 <= k < 5 ==> hdrs[k].typ == PT_LOAD && hdrs[k].align == "PAGE")
      && (forall k :: 0 <= k < 5 ==> hdrs[k].flags & PF_R != 0)
      && (forall k :: 0 <= k < 5 ==> (hdrs[k].flags & PF_W != 0 <==> k == 3))
      && (forall k :: 0 <= k < 5 ==> (hdrs[k].flags & PF_X != 0 <==> k == 4))
  {
    assert FormatHex(1) == "1";
  }

  /** Header 5 + i is the page-aligned load segment of section i: titled
      after the section, labelled by nasmIdent of its name (an identifier of
      the same length that keeps every identifier character of the name),
      with the ELF program flags of its permissions, so readable, writable
      and executable exactly as the section is and with no other flag. */
  lemma SectionProgHdrs(sects: seq<Section>)
    ensures forall i :: 0 <= i < |sects| ==>
      var hdr := ElfProgHdrs(sects)[5 + i];
      && hdr.typ == PT_LOAD && hdr.align == "PAGE"
      && hdr.title == sects[i].name + " segment program header"
      && hdr.name == NasmIdent(sects[i].name) && hdr.flags == ElfProgFlag(sects[i].perm)
      && |hdr.name| == |sects[i].name|
      && (forall k :: 0 <= k < |hdr.name| ==> IsIdentChar(hdr.name[k]))
      && (forall k :: 0 <= k < |hdr.name| && IsIdentChar(sects[i].name[k]) ==> hdr.name[k] == sects[i].name[k])
      && ((hdr.flags & PF_R != 0) <==> (sects[i].perm & PermR != 0))
      && ((hdr.flags & PF_W != 0) <==> (sects[i].perm & PermW != 0))
      && ((hdr.flags & PF_X != 0) <==> (sects[i].perm & PermX != 0))
      && hdr.flags & !(PF_R | PF_W | PF_X) == 0
  {
    forall i | 0 <= i < |sects|
      ensures (ElfProgHdrs(sects)[5 + i].flags & PF_R != 0) <==> (sects[i].perm & PermR != 0)
      ensures (ElfProgHdrs(sects)[5 + i].flags & PF_W != 0) <==> (sects[i].perm & PermW != 0)
      ensures (ElfProgHdrs(sects)[5 + i].flags & PF_X != 0) <==> (sects[i].perm & PermX != 0)
      ensures ElfProgHdrs(sects)[5 + i].flags & !(PF_R | PF_W | PF_X) == 0
    {
      ElfProgFlagBits(sects[i].perm);
    }
  }

  // ---------------------------------------------------------------------
  // nopSect

  /** The byte that nop's out a range: NOP (0x90) in executable sections,
      zero elsewhere. */
  function NopByte(perm: Perm): (b: byte)
  {
    if perm & PermX != 0 then 0x90 else 0x00
  }

  lemma NopByteChoice(perm: Perm)
    ensures NopByte(perm) == 0x90 <==> perm & PermX != 0
    ensures NopByte(perm) == 0x00 <==> perm & PermX == 0
  {
  }

  /** How a section is filled with a byte over an address range. */
  type Fill = (Section, AddrRange, byte) -> Section

  /** The section after filling each range in turn with `b`. */
  function FillAll(sect: Section, nops: seq<AddrRange>, b: byte, fill: Fill): Section
    decreases |nops|
  {
    if nops == [] then sect else FillAll(fill(sect, nops[0], b), nops[1..], b, fill)
  }

  /** Filling the ranges of `a + c` fills those of `a`, then those of `c`. */
  lemma {:induction false} FillAllAppend(sect: Section, a: seq<AddrRange>, c: seq<AddrRange>, b: byte, fill: Fill)
    ensures FillAll(sect, a + c, b, fill) == FillAll(FillAll(sect, a, b, fill), c, b, fill)
    decreases |a|
  {
    if a != [] {
      assert (a + c)[0] == a[0] && (a + c)[1..] == a[1..] + c;
      FillAllAppend(fill(sect, a[0], b), a[1..], c, b, fill);
    } else {
      assert a + c == c;
    }
  }

  /** The last range is filled last, after all the others. */
  lemma FillAllLast(sect: Section, nops: seq<AddrRange>, r: AddrRange, b: byte, fill: Fill)
    ensures FillAll(sect, nops + [r], b, fill) == fill(FillAll(sect, nops, b, fill), r, b)
  {
    FillAllAppend(sect, nops, [r], b, fill);
    assert [r][1..] == [];
  }

  /** nopSect: choose the fill byte once from the permissions, then fill the
      ranges in order. */
  method NopSect(sect: Section, nops: seq<AddrRange>, fill: Fill) returns (s: Section)
    ensures s == FillAll(sect, nops, NopByte(sect.perm), fill)
  {
    var b: byte := 0x00;
    if sect.perm & PermX != 0 {
      b := 0x90;
    }
    s := sect;
    var i := 0;
    while i < |nops|
      invariant 0 <= i <= |nops|
      invariant FillAll(s, nops[i..], b, fill) == FillAll(sect, nops, NopByte(sect.perm), fill)
      decreases |nops| - i
    {
      assert nops[i..][1..] == nops[i + 1..];
      s := fill(s, nops[i], b);
      i := i + 1;
    }
  }
}
