/** Sections of the PE image in the relinker's unified form, and their
    access permissions as a 3-bit set derived from the PE section
    characteristics (section 4.1, "Section Flags", of the Microsoft PE/COFF
    specification). */
module Sections {
  import opened Text

  /** Access permissions of a segment or section (Go `uint8`). */
  type Perm = bv8

  const PermR: Perm := 0x4
  const PermW: Perm := 0x2
  const PermX: Perm := 0x1

  /** PE section characteristics (32 bits). */
  type SectionFlags = bv32

  const SectionFlagMemExecute: SectionFlags := 0x2000_0000
  const SectionFlagMemRead: SectionFlags := 0x4000_0000
  const SectionFlagMemWrite: SectionFlags := 0x8000_0000

  /** A continuous section of memory. `size` is the virtual size; `data`
      holds the initialized bytes and may be shorter or longer. */
  datatype Section = Section(name: string, data: seq<byte>, addr: u64, size: int, perm: Perm)

  /** parsePerm: an accumulator that starts empty and gains R, W and X in
      turn for the PE read, write and execute characteristics. */
  function ParsePerm(flags: SectionFlags): Perm
  {
    var perm: Perm := 0;
    var perm := if flags & SectionFlagMemRead != 0 then perm | PermR else perm;
    var perm := if flags & SectionFlagMemWrite != 0 then perm | PermW else perm;
    if flags & SectionFlagMemExecute != 0 then perm | PermX else perm
  }

  /** R, W and X are three distinct single bits. */
  lemma PermBitsDistinct()
    ensures PermR & PermW == 0 && PermR & PermX == 0 && PermW & PermX == 0
    ensures PermR | PermW | PermX == 7
  {
  }

  /** Each permission bit is set exactly when its PE characteristic is. */
  lemma ParsePermBits(flags: SectionFlags)
    ensures (ParsePerm(flags) & PermR != 0) <==> (flags & SectionFlagMemRead != 0)
    ensures (ParsePerm(flags) & PermW != 0) <==> (flags & SectionFlagMemWrite != 0)
    ensures (ParsePerm(flags) & PermX != 0) <==> (flags & SectionFlagMemExecute != 0)
  {
  }

  /** The result fits in three bits, and every other PE characteristic is
      ignored. */
  lemma ParsePermIgnoresOtherFlags(flags: SectionFlags)
    ensures ParsePerm(flags) <= 7
    ensures ParsePerm(flags) ==
      ParsePerm(flags & (SectionFlagMemRead | SectionFlagMemWrite | SectionFlagMemExecute))
  {
  }

  /** More PE characteristics never give fewer permissions. */
  lemma ParsePermMonotone(flags1: SectionFlags, flags2: SectionFlags)
    requires flags1 & flags2 == flags1
    ensures ParsePerm(flags1) & ParsePerm(flags2) == ParsePerm(flags1)
  {
  }
}
