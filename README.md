# zelda relinker: a Dafny model of its text and byte translation layer

`zelda` relinks a Windows PE executable into an ELF executable by writing
NASM source: every PE section is listed byte by byte, and some spots are
rewritten on the way. The PE Import Address Table becomes jumps to ELF PLT
stubs. Statically linked library functions become jumps to shared-library
stubs. Given address ranges are filled with NOPs. This project models the
core of `cmd/zelda` and proves properties of it:

- **Address syntax** (`addr.go`, module `Addr`). It covers `0x…` addresses,
  half-open `[start, end)` ranges, comma-separated range lists, and
  `addr:hexbytes` binary replacements, each with its parser (`Set`) and its
  printer (`String`).
- **Permission bits** (`section.go`, module `Sections`). `parsePerm` maps the
  PE section characteristics to a 3-bit R/W/X set. The unified `Section`
  record lives here too.
- **Plain records** (`library.go`, `static.go`, `export.go`, module
  `Records`). These are the shared-library, static-library and export
  records. An abstract PE record stands in for the external PE parser.
- **Library names and lists** (`main.go`, module `Imports`). This covers
  `libName`, `parseImports`, and the libraries spliced in by `relink` for
  statically linked code.
- **Redirection printers** (`main.go`, module `Redirect`). These are
  `getStaticLibsPrinter` and `getLibImpsPrinter`. Go closures become a
  `Printer` datatype with a `Consume` function. Firing the import printer
  drains its buffer.
- **Text generation** (`gen.go`, module `Gen`). It covers the section-content
  renderer `genSectContent` with its printer chain, `hexdump`, the 80-column
  headings, `nasmIdent`, and the ELF program and section flags (System V
  ABI, object file format chapter, "Program Header" and "Sections").
- **Sections and segments** (`main.go`, module `Relink`). This covers
  `parseSects`, `elfProgHdrs` and `nopSect`.
- **Go library stand-ins** (module `Text`). These are the parts of Go's
  `strings`, `strconv`, `encoding/hex` and `fmt` that the core relies on:
  ASCII lower-casing, split and join, trimming white space, `%X` and `%d`
  formatting, `ParseUint` in base 16 with its overflow cutoff, and hex
  decoding.

Go integers are modelled as bounded subtypes of `int` (`byte`, `u32`, `u64`).
Wrap-around is written out where the source relies on it: section and
segment addresses add modulo 2^64, and the end of a section's raw data adds
modulo 2^32. Permission and flag sets are bit-vectors.

Each Go `Set` method is modelled as a function. It takes the old receiver
and the input, and returns the receiver as the call leaves it (an `Updated`
value) together with the error. This keeps visible when a receiver was
partly overwritten before an error. The list `Set` methods and the loops of
`getLibImpsPrinter`, `genSectContent`, `hexdump`, `libName` and `nopSect`
are methods with loops. Each is proved equal to a recursive specification
function, and the properties are proved about that function.

Where the documented design and the code disagree, the model follows the
code:

- `AddrRange.Set` does not check that start ≤ end.
- The import printer's libraries are ordered by `sort.Slice`, which is not
  stable. Only ascending IAT relative address is claimed, not a tie-break
  by PE order.
- The import printer's address uses 0 as "not yet set". An IAT at relative
  address 0 therefore does not always give the minimum (see
  `Redirect.LibImpsPrinter` below).
- `Section.fill` has no body in the code. Its clipping to the section's
  window is not modelled (see "Left out").

## Model

| member | source | states |
|---|---|---|
| Text.ToLowerIdempotent | cmd/zelda/addr.go:177 | lower-casing an already lower-cased string changes nothing |
| Text.SplitJoin | cmd/zelda/addr.go:19-38 | splitting the separator-joined parts, none of which holds the separator, gives the parts back |
| Text.Split | cmd/zelda/addr.go:51 | `strings.Split` gives at least one part, no part holds the separator, and joining the parts gives the input |
| Text.TrimSpace | cmd/zelda/addr.go:22 | the result is a slice `s[i..j]` of the input with only white space before `i` and from `j` on; it neither starts nor ends with white space, and a string without white space is unchanged |
| Text.FormatHex | cmd/zelda/addr.go:160 | `%X` gives a non-empty run of upper-case hex digits with no leading zero ("0" for 0) |
| Text.HexValueOfFormatHex | cmd/zelda/addr.go:160 | the value of the printed digits is the number printed |
| Text.ParseUintFromCorrect | cmd/zelda/addr.go:183 | the digit loop with the overflow cutoff succeeds exactly when the rest is all hex digits whose value stays below 2^64, and then returns that value |
| Text.ParseUintHexCorrect | cmd/zelda/addr.go:183 | `strconv.ParseUint(s, 16, 64)` succeeds iff `s` is a non-empty run of hex digits whose value is below 2^64, and returns that value |
| Text.DecodeHex | cmd/zelda/addr.go:58 | `hex.DecodeString` succeeds iff the input has even length and only hex digits, and gives half as many bytes |
| Text.DecodeHexValues | cmd/zelda/addr.go:58 | byte k of a successful decoding is the value of the digit pair at 2k and 2k+1, upper or lower case |
| Text.DecodeEncodeHex | cmd/zelda/addr.go:58-68 | decoding the `%X` form of a byte string gives the bytes back |
| Text.FormatDecimal | cmd/zelda/main.go:376 | `%d` gives a non-empty run of decimal digits with no leading zero ("0" for 0) |
| Text.DecimalValueOfFormatDecimal | cmd/zelda/main.go:376 | the value of the printed decimal digits is the number printed |
| Addr.ParseHexCorrect | cmd/zelda/addr.go:176-188 | parseHex succeeds iff the lower-cased input is `0x` and then a non-empty run of hex digits with value below 2^64, and returns that value |
| Addr.ParseHex | cmd/zelda/addr.go:176-188 | parseHex: lower-case, require `0x`, then ParseUint in base 16; its meaning is proved in Addr.ParseHexCorrect and Addr.ParseHexOfString |
| Addr.AddressString | cmd/zelda/addr.go:159-161 | an address prints as `0x` and then upper-case hex digits, with no leading zero unless the address is 0 |
| Addr.ParseHexOfString | cmd/zelda/addr.go:159-188 | parsing the printed form of any 64-bit address gives the address back |
| Addr.AddressSet | cmd/zelda/addr.go:149-156 | Address.Set reports no error iff parseHex succeeds; it stores the parsed value, or leaves the receiver unchanged on error |
| Addr.AddressSetString | cmd/zelda/addr.go:149-161 | setting any receiver from a printed address stores that address without error |
| Addr.RangeBounds | cmd/zelda/addr.go:119-121 | a range contains an address iff start ≤ address < end; it never contains its end, and contains nothing when start ≥ end |
| Addr.AddrRange.Contains | cmd/zelda/addr.go:119-121 | AddrRange.Contains; Addr.RangeBounds proves it is the half-open interval |
| Addr.AddrRangesContains | cmd/zelda/addr.go:77-84 | a range list contains an address iff some member range contains it |
| Addr.RangeSetOutcome | cmd/zelda/addr.go:124-136 | AddrRange.Set succeeds iff there are exactly two dash-separated parts that both parse, and then stores both; fewer or more parts, or a bad start, leave the receiver unchanged; a bad end leaves the new start beside the old end; start ≤ end is not checked |
| Addr.RangeSetString | cmd/zelda/addr.go:124-141 | setting any receiver from a printed range stores that range without error |
| Addr.RangeSet | cmd/zelda/addr.go:124-136 | AddrRange.Set; its outcomes are proved in Addr.RangeSetOutcome and its round trip in Addr.RangeSetString |
| Addr.RangeString | cmd/zelda/addr.go:139-141 | AddrRange.String; Addr.RangeSetString proves that Set reads it back |
| Addr.ReplacementSetOutcome | cmd/zelda/addr.go:50-64 | Replacement.Set succeeds iff there are exactly two colon-separated parts, an address and hex bytes of even length; it then stores the address and the decoded bytes (byte k is the value of digit pair k); fewer or more parts, or a bad address, leave the receiver unchanged; bad hex bytes leave the new address beside the old bytes |
| Addr.ReplacementSetString | cmd/zelda/addr.go:50-68 | setting any receiver from the `%s:%X` form of a replacement stores that replacement without error |
| Addr.ReplacementSet | cmd/zelda/addr.go:50-64 | Replacement.Set; its outcomes are proved in Addr.ReplacementSetOutcome and its round trip in Addr.ReplacementSetString |
| Addr.ReplacementString | cmd/zelda/addr.go:67-69 | Replacement.String; Addr.ReplacementSetString proves that Set reads it back |
| Addr.AppendParsed | cmd/zelda/addr.go:87-98 | the list `Set` loops append one parsed item per part, in order; they stop at the first bad part with the items of the earlier parts already appended, and report that part's error |
| Addr.AppendParsedStops | cmd/zelda/addr.go:89-94 | once a prefix of the parts fails, more parts change nothing |
| Addr.AppendParsedAll | cmd/zelda/addr.go:89-96 | when every part parses to its item, all items are appended without error |
| Addr.SetRanges | cmd/zelda/addr.go:87-98 | AddrRanges.Set leaves the old list followed by the ranges parsed from the trimmed comma-separated parts, up to the first bad one, and that part's error |
| Addr.SetReplacements | cmd/zelda/addr.go:18-29 | Replacements.Set leaves the old list followed by the replacements parsed from the trimmed comma-separated parts, up to the first bad one, and that part's error |
| Addr.SetList | cmd/zelda/addr.go:87-98 | the loop both list `Set` methods share appends exactly what AppendParsed gives for the comma-separated parts and returns its error |
| Addr.PrintedNoSpace | cmd/zelda/addr.go:87-108 | printed addresses, ranges and replacements hold no comma and no white space, so trimming and splitting leave them whole |
| Addr.SetRangesOfString | cmd/zelda/addr.go:87-108 | setting from the printed form of a non-empty range list appends exactly those ranges, without error |
| Addr.SetRangesOfEmpty | cmd/zelda/addr.go:87-108 | an empty range list prints as "", and setting from "" fails because the single empty part is not a range |
| Addr.RangesString | cmd/zelda/addr.go:101-108 | AddrRanges.String; Addr.SetRangesOfString and Addr.SetRangesOfEmpty prove what Set reads back from it |
| Addr.SetReplacementsOfString | cmd/zelda/addr.go:18-39 | setting from the printed form of a non-empty replacement list appends exactly those replacements, without error |
| Addr.ReplacementsString | cmd/zelda/addr.go:32-39 | Replacements.String; Addr.SetReplacementsOfString proves that Set reads it back |
| Sections.PermBitsDistinct | cmd/zelda/section.go:23-30 | R, W and X are three distinct single bits that together make 7 |
| Sections.ParsePerm | cmd/zelda/section.go:34-46 | parsePerm; its meaning is proved in Sections.ParsePermBits, Sections.ParsePermIgnoresOtherFlags and Sections.ParsePermMonotone |
| Sections.ParsePermBits | cmd/zelda/section.go:34-46 | the R, W and X bits are each set iff the matching PE read, write and execute characteristic is set |
| Sections.ParsePermIgnoresOtherFlags | cmd/zelda/section.go:34-46 | the permissions fit in three bits and depend on no other PE characteristic |
| Sections.ParsePermMonotone | cmd/zelda/section.go:34-46 | more PE characteristics never give fewer permissions |
| Imports.LibName | cmd/zelda/main.go:401-412 | the fixed-point loop returns the lower-cased name with every trailing extension trimmed |
| Imports.BaseName | cmd/zelda/main.go:401-412 | libName as a function; Imports.LibName proves the loop equals it and Imports.StripExtsClosedForm gives its closed form |
| Imports.StripExtsClosedForm | cmd/zelda/main.go:401-412 | the name libName keeps is everything before the first dot of the last path element |
| Imports.BaseNameIdempotent | cmd/zelda/main.go:401-412 | libName of a library name is that name |
| Imports.BaseNameLower | cmd/zelda/main.go:402 | libName returns lower case |
| Imports.BaseNameOfSoname | cmd/zelda/main.go:401-412 | libName of `<name>.so` is `<name>` for every name libName returns |
| Imports.BaseNameKernel32 | cmd/zelda/main.go:401-412 | `KERNEL32.DLL` gives `kernel32` |
| Imports.BaseNameLibc | cmd/zelda/main.go:401-412 | `libc.so.6` gives `libc` |
| Imports.ParseImports | cmd/zelda/main.go:364-385 | one library per import, in import order, named by libName of the DLL name, with file name `<name>.so` and one function per IAT entry in IAT order, `<name>_ordinal_<n>` for ordinals |
| Imports.StaticLibrary | cmd/zelda/main.go:69-76 | a statically linked library becomes a library that keeps its file name and lists its functions' names in order |
| Imports.Libraries | cmd/zelda/main.go:64-78 | relink's library list is the parsed imports followed by one library per statically linked library, in order |
| Imports.LibrariesNamedByFilename | cmd/zelda/main.go:64-78 | every library of the list is named by libName of its file name, and that name is already normal |
| Redirect.FindStaticFirst | cmd/zelda/main.go:200-209 | the static printer's search finds a function at the address in library order and then function order, earlier ones are not at the address, and it finds none only when no function is there |
| Redirect.StaticLibsPrinter | cmd/zelda/main.go:198-214 | getStaticLibsPrinter; its behaviour is proved in Redirect.StaticPrinterClaims |
| Redirect.Consume | cmd/zelda/main.go:199-271 | firing a printer at an address; Redirect.StaticPrinterClaims and Redirect.LibImpsPrinterClaims state what each kind claims and writes |
| Redirect.StaticPrinterClaims | cmd/zelda/main.go:199-212 | the static printer claims 5 bytes exactly where some statically linked function starts and writes `jmp plt.<name>` for the first one; elsewhere it claims and writes nothing; it keeps no state |
| Redirect.LibImpsPrinterClaims | cmd/zelda/main.go:264-271 | the import printer claims its size at its address and nothing elsewhere; firing drains its buffer, so a second firing writes nothing but claims the full size again |
| Redirect.ImpsSizeAppend | cmd/zelda/main.go:258-262 | the IAT size of two library lists together is the sum of their sizes |
| Redirect.ImpsSizePermutation | cmd/zelda/main.go:258-262 | the IAT size does not depend on the order of the libraries |
| Redirect.ImpsSizeOfImports | cmd/zelda/main.go:258-262 | the parsed libraries take 4·(n+1) bytes per import with n IAT entries |
| Redirect.ImpsSizeSorted | cmd/zelda/main.go:258-262 | the sorted libraries take the IAT size of the PE's imports |
| Redirect.RelAddrMap | cmd/zelda/main.go:223-227 | every import's library name gets a relative address |
| Redirect.RelAddrMapLastWins | cmd/zelda/main.go:223-227 | each name maps to the IAT relative address of the last import with that name |
| Redirect.InsertByRelAddr | cmd/zelda/main.go:228-242 | insertion adds exactly the one library and keeps every library keyed |
| Redirect.SortByRelAddr | cmd/zelda/main.go:228-242 | the sort is a permutation of the libraries |
| Redirect.SortByRelAddrSorted | cmd/zelda/main.go:228-242 | the sorted libraries are in ascending order of IAT relative address |
| Redirect.ParsedLibrariesHaveRelAddr | cmd/zelda/main.go:221-241 | every parsed library has a relative address, so the "not present in original PE file" panic cannot happen |
| Redirect.ImportsByRelAddrOrder | cmd/zelda/main.go:221-242 | the printer's libraries are the parsed libraries, each once, in ascending order of IAT relative address |
| Redirect.SmallestRelAddrUnique | cmd/zelda/main.go:249-256 | without an IAT at relative address 0, the minimum loop's result is the smallest relative address whatever the map order |
| Redirect.RecordRelAddrs | cmd/zelda/main.go:223-227 | the first loop builds the relative address map |
| Redirect.FindSmallestRelAddr | cmd/zelda/main.go:249-256 | the minimum loop, in any map order, leaves 0 or some relative address; without a 0 address it is the smallest one |
| Redirect.SumImpsSize | cmd/zelda/main.go:258-262 | the size loop adds 4·(n+1) per library |
| Redirect.RenderLibs | cmd/zelda/main.go:243-247 | the buffer holds each library's rendering in order |
| Redirect.LibImpsPrinter | cmd/zelda/main.go:217-273 | the import printer sits at image base plus the smallest IAT relative address (modulo 2^64), claims the IAT size of the PE's imports, and holds the renderings of the libraries sorted by relative address |
| Gen.PrintChar | cmd/zelda/gen.go:668-673 | a printable byte (0x20 to 0x7E) shows as itself, any other byte as `.` |
| Gen.IsPrint | cmd/zelda/gen.go:668-673 | isPrint; Gen.PrintChar states how it is used |
| Gen.AddrAtStep | cmd/zelda/gen.go:460-476 | advancing the wrapped address by k is advancing the offset by k |
| Gen.OfferFirstClaim | cmd/zelda/gen.go:454-466 | printers are tried in order. No claim means no printer claims; the text is then everything they wrote, and each is in the state its firing left. Otherwise the claim is the first claiming printer's, earlier ones claimed nothing, the text is the earlier printers' text and then the winner's, the printers up to the winner are in their fired states, and later ones are unchanged |
| Gen.Offer | cmd/zelda/gen.go:454-466 | the printer loop as a function; it keeps one printer state per printer, and Gen.OfferFirstClaim states who wins |
| Gen.NextOffset | cmd/zelda/gen.go:460-476 | every step moves the cursor forward |
| Gen.RenderAdvance | cmd/zelda/gen.go:450-477 | one step of the cursor loop writes that step's text and leaves the listing of the rest to do |
| Gen.RenderFrom | cmd/zelda/gen.go:450-477 | the cursor loop as a function; Gen.RenderQuiet, Gen.ClaimedBytesSkipped and Gen.RenderAdvance state what it lists |
| Gen.UninitTail | cmd/zelda/gen.go:480-484 | no tail when the data covers the virtual size; otherwise `; Uninitialized data.`, then `resb N` where the digits of N, with no leading zero, denote the virtual size minus the data length |
| Gen.GenSectContent | cmd/zelda/gen.go:445-486 | genSectContent's text is the listing of the data with the printers, then the uninitialized tail; the printers it returns are the drained ones |
| Gen.RenderData | cmd/zelda/gen.go:448-477 | the cursor loop writes the listing of the data and leaves the printers as the listing does |
| Gen.RenderStep | cmd/zelda/gen.go:450-476 | one pass keeps the offset and the address in step (address = base + offset modulo 2^64), moves forward, and keeps the listing's text and printers |
| Gen.OfferPrinters | cmd/zelda/gen.go:455-466 | the inner loop offers the address to each printer in turn until one claims bytes |
| Gen.OfferQuiet | cmd/zelda/gen.go:455-466 | printers that never fire leave an offer with no claim and no text |
| Gen.RenderSilent | cmd/zelda/gen.go:450-477 | when no printer ever claims or writes, every byte gets one address line and one db line, in order, at consecutive addresses |
| Gen.RenderQuiet | cmd/zelda/gen.go:450-477 | with printers that never fire, the section is listed byte by byte |
| Gen.ClaimedBytesSkipped | cmd/zelda/gen.go:460-465 | after a claim of n bytes, nothing is listed for them and the listing resumes n bytes further on |
| Gen.StaticStubListing | cmd/zelda/gen.go:450-477 | a 6-byte section with `printf` statically linked at its start lists a jump over the first five bytes and a db line for the sixth |
| Gen.StaticStubTail | cmd/zelda/gen.go:468-476 | a byte no printer claims gets an address line and a db line |
| Gen.ExampleOffers | cmd/zelda/main.go:199-212 | the static printer claims 5 bytes at `printf`'s address with its jump, and nothing 5 bytes on |
| Gen.ExampleAddressStrings | cmd/zelda/addr.go:159-161 | 0x401005 and 0x40100A print as `0x401005` and `0x40100A` |
| Gen.ExampleJmpLine | cmd/zelda/main.go:204 | the jump line for `printf` is `\tjmp     plt.printf\n` |
| Gen.ExampleDbLine | cmd/zelda/gen.go:468-474 | the db line of 0xC3 is `\tdb      0xC3 ; \|.\|\n` |
| Gen.AsciiColumn | cmd/zelda/gen.go:653-659 | the ASCII column has one character per byte, the byte itself if printable and `.` otherwise |
| Gen.HexdumpLinesShape | cmd/zelda/gen.go:634-665 | a hexdump has ⌈len/16⌉ lines, and line i shows bytes 16i to 16i+15 in order |
| Gen.HexdumpLines | cmd/zelda/gen.go:634-665 | the lines of hexdump; Gen.HexdumpLinesShape and Gen.HexLineWidth state their number, contents and width |
| Gen.HexSlotsWidth | cmd/zelda/gen.go:643-652 | the hex column is 94 characters wide: short lines are padded with 6 spaces per missing byte |
| Gen.HexLineWidth | cmd/zelda/gen.go:641-661 | a line of n bytes is 9 + 94 + 4 + n + 2 characters long |
| Gen.Hexdump | cmd/zelda/gen.go:634-665 | the `pos` loop writes the hexdump lines in order |
| Gen.HexdumpStep | cmd/zelda/gen.go:636-662 | the hexdump from `pos` on is the line of up to 16 bytes there, then the hexdump from its end |
| Gen.HexColumn | cmd/zelda/gen.go:643-652 | the slot loop writes the 16 hex slots |
| Gen.AsciiOf | cmd/zelda/gen.go:653-659 | the byte loop writes the ASCII column |
| Gen.HexdumpEmpty | cmd/zelda/gen.go:634-665 | an empty input gives an empty hexdump |
| Gen.Heading | cmd/zelda/gen.go:676-705 | h0, h0End, h2 and h2End give an 80-column line: `; ` and three `_` (h0) or `-` (h2), ` [ ` or ` [/ ` for the closing forms, the title, ` ] `, then the same rule character to column 80 |
| Gen.NasmIdent | cmd/zelda/gen.go:708-722 | length is kept, `[A-Za-z0-9_]` characters are kept, every other character becomes `_` |
| Gen.NasmIdentFixed | cmd/zelda/gen.go:708-722 | a name is left alone iff it is already made of identifier characters |
| Gen.NasmIdentIdempotent | cmd/zelda/gen.go:708-722 | nasmIdent is idempotent |
| Gen.ElfProgFlagBits | cmd/zelda/gen.go:726-738 | PF_R, PF_W and PF_X are each set iff R, W and X are, and no other flag is set |
| Gen.ElfProgFlagSameBits | cmd/zelda/gen.go:726-738 | the program flags are the permission bits themselves |
| Gen.ElfProgFlag | cmd/zelda/gen.go:726-738 | elfProgFlag; Gen.ElfProgFlagBits states its bits |
| Gen.ElfSectionFlagBits | cmd/zelda/gen.go:742-756 | SHF_ALLOC is always set, SHF_WRITE iff W, SHF_EXECINSTR iff X, nothing else, and R makes no difference |
| Gen.ElfSectionFlag | cmd/zelda/gen.go:742-756 | elfSectionFlag; Gen.ElfSectionFlagBits states its bits |
| Gen.SectPad | cmd/zelda/gen.go:508-511 | the pad is `int3` iff the section is executable, `db 0x00` otherwise |
| Relink.SliceInBoundsNoWrap | cmd/zelda/main.go:279-281 | the raw-data slice is in bounds iff it lies inside the file and its end does not wrap around 2^32 |
| Relink.ParseSectsFields | cmd/zelda/main.go:276-294 | one section per header, in order, with the header's name, exactly its raw data, its virtual size, the image base plus its relative address modulo 2^64, and the permission bits of its characteristics |
| Relink.ParseSects | cmd/zelda/main.go:276-294 | parseSects; Relink.ParseSectsFields states each section it builds |
| Relink.ElfProgHdrsShape | cmd/zelda/main.go:298-344 | five headers more than sections; the fixed ones are interp (align 0x1), dynamic, r_seg, rw_seg and x_seg (load segments, aligned to PAGE), all readable, only rw_seg writable, only x_seg executable |
| Relink.SectionProgHdrs | cmd/zelda/main.go:345-358 | header 5+i is a PAGE-aligned load segment titled after section i, labelled nasmIdent of its name (an identifier of the same length keeping the name's identifier characters), with flags elfProgFlag of its permissions: readable, writable and executable exactly as section i is, and no other flag |
| Relink.ElfProgHdrs | cmd/zelda/main.go:298-360 | elfProgHdrs; Relink.ElfProgHdrsShape and Relink.SectionProgHdrs state every header |
| Relink.NopByteChoice | cmd/zelda/main.go:390-393 | the fill byte is 0x90 iff the section is executable, and 0x00 otherwise |
| Relink.FillAllAppend | cmd/zelda/main.go:394-396 | filling the ranges of a + c fills those of a, then those of c |
| Relink.FillAllLast | cmd/zelda/main.go:394-396 | the last range is filled after all the others |
| Relink.NopSect | cmd/zelda/main.go:389-397 | nopSect chooses the fill byte once from the permissions and fills each range in order |

## Left out

- PE parsing, JSON loading of the static-library list, command-line flags,
  `main` and the writing of output files are I/O or foreign code. An
  abstract `PEFile` record stands in for the parsed PE.
- The `dump*` template functions (`cmd/zelda/gen.go`) depend on text
  templates in files that are not part of this model and on `tabwriter`.
  The pure pieces they use are modelled: the headings, `nasmIdent`, the
  flags and the pad.
- `ProgFlagString` and `SectionFlagString` rely on `debug/elf`'s `String`
  methods. Flags are modelled as bit sets instead of strings, and
  `Relink.ProgHeader` holds the flag bits.
- `Section.fill` has no body in the code. `Relink.NopSect` takes it as a
  function parameter, so clipping a fill to the section's address window is
  not modelled.
- Relink.ParseSectsFields: like `Relink.ParseSects`, it requires every
  header's raw-data slice to lie inside the file without wrapping. Go's
  `file.Content[start:end]` panics otherwise, and the panic is not
  modelled.
- `Sections.Section`: the Go struct has no `Size` field although
  `genSectContent` and `parseSects` use one. The model adds it. Sections
  are values, not pointers, so the aliasing of `*Section` is not modelled.
- No code applies a `Replacement` to a section. Only its parsing and
  printing are modelled.
- Some calls pass fewer arguments than the callee declares (`dumpFileHdr`,
  `dumpDynamicSect`, `dumpDynstrSect`, `dumpDynsymSect`). These calls are
  part of the template plumbing and are not modelled.
- `Text.ToLower`: lower-cases ASCII letters only. Go's `strings.ToLower`
  also folds non-ASCII letters.
- Gen.Heading: the title length counts
  characters, while Go counts UTF-8 bytes. The two agree on ASCII titles.
  Longer titles make `strings.Repeat` panic, which the precondition
  excludes.
- `Gen.GenSectContent`: the printers' error path is not modelled. Both
  printers write only to an in-memory buffer, where writes cannot fail.
- `Gen.GenSectContent`: the cursor loop is verified against any offer
  function (`Gen.RenderData`). `GenSectContent` runs it with the `Offer`
  specification, and the printer loop is verified separately
  (`Gen.OfferPrinters`).
- `Gen.GenSectContent`: printers report counts as `nat`. A negative count
  from a foreign printer cannot occur with the two printers of the source.
- `Redirect.SortByRelAddr` is an insertion sort. It gives one of the orders
  `sort.Slice` may produce; the tie order of `sort.Slice` is not modelled.
- `Redirect.LibImpsPrinter`: the address is stated only as image base plus
  some value the minimum loop may leave. With an IAT at relative address
  0, that value depends on Go's map iteration order. Without one, it is the
  minimum (`Redirect.SmallestRelAddrUnique`).
- `Redirect.LibImpsPrinter`: `render` stands for the `dumpLibImps` template
  and is a function parameter.
- `Redirect.LibImpsPrinterClaims`: an import printer of size 0 (no imports)
  writes its text when it fires but claims nothing, so the byte is listed
  as usual.
