/** The plain records of the relinker (shared libraries, statically linked
    libraries, exports) and the abstract view of a parsed PE file that
    stands in for the external PE parser. */
module Records {
  import opened Text
  import opened Addr
  import opened Sections

  /** A shared library: display name, file name and imported functions. */
  datatype Library = Library(name: string, filename: string, funcs: seq<string>)

  /** A statically linked function: its address in the executable and name. */
  datatype StaticFunc = StaticFunc(addr: Address, name: string)

  /** A statically linked library. */
  datatype StaticLib = StaticLib(filename: string, funcs: seq<StaticFunc>)

  /** An exported symbol. */
  datatype Export = Export(name: string, addr: Address)

  /** One IAT entry of a PE import: by ordinal or by name. */
  datatype IATEntry = Ordinal(ordinal: nat) | Named(name: string)

  /** One PE import directory entry: the DLL name, the relative address of
      its IAT, and the IAT entries in order. */
  datatype Import = Import(dllName: string, iatRelAddr: u32, iats: seq<IATEntry>)

  /** One PE section header. */
  datatype SectHdr = SectHdr(
    name: string,
    relAddr: u32,
    virtualSize: u32,
    dataOffset: u32,
    dataSize: u32,
    flags: SectionFlags)

  /** What the relinker reads of a parsed PE file. */
  datatype PEFile = PEFile(
    imageBase: u64,
    entryRelAddr: u32,
    sectHdrs: seq<SectHdr>,
    content: seq<byte>,
    imps: seq<Import>)
}
