/** NASM text generation: the section-content renderer with its printers,
    hexdumps, 80-column headings, NASM identifiers, and the mapping of
    permissions to ELF program and section header flags (System V ABI,
    object file format chapter, "Program Header" and "Sections"). */
module Gen {
  import opened Text
  import opened Addr
  import opened Sections
  import opened Records
  import opened Redirect

  // ---------------------------------------------------------------------
  // Single bytes

  /** isPrint: printable in the C locale. */
  predicate IsPrint(b: byte)
  {
    0x20 <= b <= 0x7E
  }

  /** The character shown for a byte: itself if printable, '.' otherwise. */
  function PrintChar(b: byte): (c: char)
    ensures IsPrint(b) ==> c as int == b
    ensures !IsPrint(b) ==> c == '.'
  {
    if IsPrint(b) then b as char else '.'
  }

  /** The line for one byte no printer claimed. */
  function DbLine(b: byte): string
  {
    "\tdb      0x" + Hex2(b) + " ; |" + [PrintChar(b)] + "|\n"
  }

  function AddressLine(addr: Address): string
  {
    "; address: " + AddressString(addr) + "\n"
  }

  /** The address `i` bytes past `base`, wrapping as Go's uint64 does. */
  function AddrAt(base: Address, i: nat): Address
  {
    (base + i) % U64_MODULUS
  }

  /** Advancing the wrapped address by `k` is advancing the offset by `k`. */
  lemma AddrAtStep(base: Address, i: nat, k: nat)
    ensures AddrAt(base, i + k) == (AddrAt(base, i) + k) % U64_MODULUS
  {
    var q := (base + i) / U64_MODULUS;
    assert base + i == q * U64_MODULUS + AddrAt(base, i);
    assert base + i + k == q * U64_MODULUS + (AddrAt(base, i) + k);
  }

  /** The address kept beside offset `i`, advanced to offset `next`. */
  lemma AddrAtNext(base: Address, i: nat, next: nat)
    requires i <= next
    ensures (AddrAt(base, i) + (next - i)) % U64_MODULUS == AddrAt(base, next)
  {
    AddrAtStep(base, i, next - i);
  }

  // ---------------------------------------------------------------------
  // genSectContent, as specification

  /** What offering one address to the printers did: the bytes claimed,
      everything the printers wrote, and the printers afterwards. */
  datatype Offered = Offered(n: nat, text: string, ps: seq<Printer>)

  /** The inner loop of genSectContent: printers are tried in order until
      one claims bytes; every printer tried may write. */
  function Offer(ps: seq<Printer>, addr: Address): (r: Offered)
    ensures |r.ps| == |ps|
  {
    if ps == [] then Offered(0, "", [])
    else
      var c := Consume(ps[0], addr);
      if c.n != 0 then Offered(c.n, c.text, [c.after] + ps[1..])
      else
        var rest := Offer(ps[1..], addr);
        Offered(rest.n, c.text + rest.text, [c.after] + rest.ps)
  }

  /** Everything the first `i` printers write when offered `addr`, in order. */
  function WrittenBefore(ps: seq<Printer>, addr: Address, i: nat): string
    requires i <= |ps|
  {
    if i == 0 then "" else Consume(ps[0], addr).text + WrittenBefore(ps[1..], addr, i - 1)
  }

  /** The first printer to claim bytes wins. No claim means no printer
      claims; then the text is everything the printers wrote and every
      printer is in the state its own firing left it. Otherwise the claim is
      that printer's, every earlier printer claimed nothing, the text is what
      the earlier printers wrote followed by what the winner wrote, the
      printers up to the winner are in the states their firing left them,
      and later printers are not consulted, so they are unchanged. */
  lemma {:induction false} OfferFirstClaim(ps: seq<Printer>, addr: Address)
    ensures var r := Offer(ps, addr);
      && (r.n == 0 <==> forall i :: 0 <= i < |ps| ==> Consume(ps[i], addr).n == 0)
      && (r.n == 0 ==>
        && r.text == WrittenBefore(ps, addr, |ps|)
        && forall j :: 0 <= j < |ps| ==> r.ps[j] == Consume(ps[j], addr).after)
      && (r.n != 0 ==>
        exists i :: ClaimedBy(ps, addr, r, i))
  {
    if ps != [] {
      var c := Consume(ps[0], addr);
      var r := Offer(ps, addr);
      if c.n != 0 {
        assert ClaimedBy(ps, addr, r, 0);
      } else {
        var tail := ps[1..];
        OfferFirstClaim(tail, addr);
        var rest := Offer(tail, addr);
        assert r.ps == [c.after] + rest.ps;
        assert r.text == c.text + rest.text;
        if r.n != 0 {
          var i :| ClaimedBy(tail, addr, rest, i);
          ClaimedByNext(ps, addr, r, rest, i);
        } else {
          forall i | 0 <= i < |ps| ensures Consume(ps[i], addr).n == 0 {
            if i > 0 {
              assert ps[i] == tail[i - 1];
            }
          }
          forall j | 0 <= j < |ps| ensures r.ps[j] == Consume(ps[j], addr).after {
            if j > 0 {
              assert ps[j] == tail[j - 1] && r.ps[j] == rest.ps[j - 1];
            }
          }
        }
      }
    }
  }

  /** Printer `i` won the offer `r`: it claimed r.n bytes, the earlier ones
      claimed none, the text is the earlier printers' followed by the
      winner's, the printers up to the winner are as their firing left them
      and the later ones are unchanged. */
  predicate ClaimedBy(ps: seq<Printer>, addr: Address, r: Offered, i: int)
  {
    && 0 <= i < |ps| && |r.ps| == |ps|
    && Consume(ps[i], addr).n == r.n
    && (forall j :: 0 <= j < i ==> Consume(ps[j], addr).n == 0)
    && r.text == WrittenBefore(ps, addr, i) + Consume(ps[i], addr).text
    && (forall j :: 0 <= j <= i ==> r.ps[j] == Consume(ps[j], addr).after)
    && (forall j :: i < j < |ps| ==> r.ps[j] == ps[j])
  }

  /** A win in the tail is a win one place further on when the first
      printer claims nothing. */
  lemma ClaimedByNext(ps: seq<Printer>, addr: Address, r: Offered, rest: Offered, i: int)
    requires ps != [] && Consume(ps[0], addr).n == 0
    requires ClaimedBy(ps[1..], addr, rest, i)
    requires r.n == rest.n && r.text == Consume(ps[0], addr).text + rest.text
    requires r.ps == [Consume(ps[0], addr).after] + rest.ps
    ensures ClaimedBy(ps, addr, r, i + 1)
  {
    var tail := ps[1..];
    var c := Consume(ps[0], addr);
    assert ps[i + 1] == tail[i];
    assert WrittenBefore(ps, addr, i + 1) == c.text + WrittenBefore(tail, addr, i);
    ConcatAssoc(c.text, WrittenBefore(tail, addr, i), Consume(tail[i], addr).text);
    forall j | 0 <= j < i + 1 ensures Consume(ps[j], addr).n == 0 {
      if j > 0 {
        assert ps[j] == tail[j - 1];
      }
    }
    forall j | 0 <= j <= i + 1 ensures r.ps[j] == Consume(ps[j], addr).after {
      if j > 0 {
        assert ps[j] == tail[j - 1] && r.ps[j] == rest.ps[j - 1];
      }
    }
    forall j | i + 1 < j < |ps| ensures r.ps[j] == ps[j] {
      assert r.ps[j] == rest.ps[j - 1] && ps[j] == tail[j - 1];
    }
  }

  /** Where the cursor goes after claiming `n` bytes, 0 meaning none. */
  function NextOffset(i: nat, n: nat): (next: nat)
    ensures next > i
  {
    if n != 0 then i + n else i + 1
  }

  /** The text of one step: the address, what the printers wrote, and a db
      line for the byte if no printer claimed bytes. */
  function StepText(addr: Address, printed: string, n: nat, b: byte): string
  {
    AddressLine(addr) + printed + (if n != 0 then "" else DbLine(b))
  }

  datatype Rendered = Rendered(text: string, ps: seq<Printer>)

  /** How the printers answer at one address; the renderer uses `Offer`.
      The listing is stated for any such step so that reasoning about the
      cursor loop stays apart from reasoning about the printers. */
  type OfferFn = (seq<Printer>, Address) -> Offered

  /** The listing of `data` from offset `i` on, at `base + i`: the address,
      what the printers wrote, and a db line if none claimed bytes; then
      the rest, from past the claimed bytes. */
  function RenderFrom(data: seq<byte>, base: Address, i: nat, ps: seq<Printer>, offer: OfferFn): (r: Rendered)
    decreases |data| - i
  {
    if i >= |data| then Rendered("", ps)
    else
      var addr := AddrAt(base, i);
      var o := offer(ps, addr);
      var rest := RenderFrom(data, base, NextOffset(i, o.n), o.ps, offer);
      Rendered(StepText(addr, o.text, o.n, data[i]) + rest.text, rest.ps)
  }

  /** The loop step of genSectContent keeps the listing's remainder in
      step with the offset and the address. */
  lemma RenderAdvance(data: seq<byte>, base: Address, i: nat, ps: seq<Printer>, offer: OfferFn, before: string, whole: Rendered)
    requires i < |data|
    requires before + RenderFrom(data, base, i, ps, offer).text == whole.text
    requires RenderFrom(data, base, i, ps, offer).ps == whole.ps
    ensures var o := offer(ps, AddrAt(base, i));
      var next := NextOffset(i, o.n);
      var rest := RenderFrom(data, base, next, o.ps, offer);
      (before + StepText(AddrAt(base, i), o.text, o.n, data[i])) + rest.text == whole.text
      && rest.ps == whole.ps
  {
    var o := offer(ps, AddrAt(base, i));
    var next := NextOffset(i, o.n);
    var step := StepText(AddrAt(base, i), o.text, o.n, data[i]);
    ConcatAssoc(before, step, RenderFrom(data, base, next, o.ps, offer).text);
  }

  lemma ConcatAssoc(a: string, b: string, c: string)
    ensures a + (b + c) == (a + b) + c
  {
  }

  /** The comment and the directive that start the uninitialized tail. */
  const UNINIT_HEAD: string := "; Uninitialized data.\n" + "resb "

  /** The tail for the part of the virtual size past the initialized data:
      nothing when the data covers the virtual size; otherwise a comment and
      `resb N`, where the decimal digits of N, without a leading zero,
      denote the virtual size minus the length of the data. */
  function UninitTail(sect: Section): (r: string)
    ensures sect.size <= |sect.data| ==> r == ""
    ensures sect.size > |sect.data| ==>
      && |r| >= |UNINIT_HEAD| + 2 && r[..|UNINIT_HEAD|] == UNINIT_HEAD && r[|r| - 1] == '\n'
      && var digits := r[|UNINIT_HEAD|..|r| - 1];
      && AllDecimal(digits) && digits[0] != '0' && DecimalValue(digits) == sect.size - |sect.data|
  {
    if sect.size > |sect.data| then
      var n := sect.size - |sect.data|;
      var r := UNINIT_HEAD + FormatDecimal(n) + "\n";
      assert r[|UNINIT_HEAD|..|r| - 1] == FormatDecimal(n);
      DecimalValueOfFormatDecimal(n);
      r
    else ""
  }

  // ---------------------------------------------------------------------
  // genSectContent

  /** genSectContent: the listing of the data, then the uninitialized tail.
      The printers afterwards are returned, since the import printer drains
      its buffer. */
  method GenSectContent(sect: Section, ps: seq<Printer>) returns (content: string, ps': seq<Printer>)
    ensures var r := RenderFrom(sect.data, sect.addr, 0, ps, Offer);
      content == r.text + UninitTail(sect) && ps' == r.ps
  {
    var listing;
    listing, ps' := RenderData(sect.data, sect.addr, ps, Offer);
    content := listing + UninitTail(sect);
  }

  /** genSectContent's loop: walk the data with an offset and an address
      kept in step; at each offset offer the address to the printers, skip
      what the first claiming printer claims, or list the byte. */
  method RenderData(data: seq<byte>, base: Address, ps: seq<Printer>, offer: OfferFn) returns (text: string, ps': seq<Printer>)
    ensures var r := RenderFrom(data, base, 0, ps, offer);
      text == r.text && ps' == r.ps
  {
    ghost var whole := RenderFrom(data, base, 0, ps, offer);
    text := "";
    var cur := ps;
    var addr: Address := base;
    var i: nat := 0;
    while i < |data|
      invariant addr == AddrAt(base, i)
      invariant text + RenderFrom(data, base, i, cur, offer).text == whole.text
      invariant RenderFrom(data, base, i, cur, offer).ps == whole.ps
      decreases |data| - i
    {
      i, cur, addr, text := RenderStep(data, base, offer, i, cur, addr, text);
    }
    ps' := cur;
  }

  /** One pass of genSectContent's loop: the text of offset `i`, and the
      offset, printers and address to go on with. */
  method RenderStep(data: seq<byte>, base: Address, offer: OfferFn, i: nat, cur: seq<Printer>, addr: Address, text: string)
    returns (i': nat, cur': seq<Printer>, addr': Address, text': string)
    requires i < |data| && addr == AddrAt(base, i)
    ensures i' > i && addr' == AddrAt(base, i')
    ensures text' + RenderFrom(data, base, i', cur', offer).text == text + RenderFrom(data, base, i, cur, offer).text
    ensures RenderFrom(data, base, i', cur', offer).ps == RenderFrom(data, base, i, cur, offer).ps
  {
    var whole := RenderFrom(data, base, i, cur, offer);
    RenderAdvance(data, base, i, cur, offer, text, Rendered(text + whole.text, whole.ps));
    var o := offer(cur, addr);
    i' := NextOffset(i, o.n);
    AddrAtNext(base, i, i');
    text' := text + StepText(addr, o.text, o.n, data[i]);
    cur' := o.ps;
    addr' := (addr + (i' - i)) % U64_MODULUS;
  }

  /** The inner loop of genSectContent: offer `addr` to each printer in
      turn until one claims bytes. */
  method OfferPrinters(ps: seq<Printer>, addr: Address) returns (o: Offered)
    ensures o == Offer(ps, addr)
  {
    ghost var spec := Offer(ps, addr);
    var text := "";
    var done: seq<Printer> := [];
    var claimed: nat := 0;
    var j := 0;
    while j < |ps| && claimed == 0
      invariant 0 <= j <= |ps|
      invariant claimed == 0 ==> spec == Prepend(text, done, Offer(ps[j..], addr))
      invariant claimed != 0 ==> spec == Offered(claimed, text, done + ps[j..])
      decreases |ps| - j
    {
      var c := Consume(ps[j], addr);
      OfferStep(ps, j, addr);
      if c.n == 0 {
        PrependTwice(text, done, c.text, [c.after], Offer(ps[j + 1..], addr));
      } else {
        assert done + ([c.after] + ps[j + 1..]) == (done + [c.after]) + ps[j + 1..];
      }
      text := text + c.text;
      done := done + [c.after];
      claimed := c.n;
      j := j + 1;
    }
    o := Offered(claimed, text, done + ps[j..]);
  }

  /** `o` after earlier printers wrote `text` and became `done`. */
  function Prepend(text: string, done: seq<Printer>, o: Offered): Offered
  {
    Offered(o.n, text + o.text, done + o.ps)
  }

  lemma PrependTwice(t1: string, d1: seq<Printer>, t2: string, d2: seq<Printer>, o: Offered)
    ensures Prepend(t1, d1, Prepend(t2, d2, o)) == Prepend(t1 + t2, d1 + d2, o)
  {
    assert t1 + (t2 + o.text) == (t1 + t2) + o.text;
    assert d1 + (d2 + o.ps) == (d1 + d2) + o.ps;
  }

  /** Offering to the printers from `j` on: printer `j` claims, or it
      writes and the rest are offered. */
  lemma OfferStep(ps: seq<Printer>, j: nat, addr: Address)
    requires j < |ps|
    ensures var c := Consume(ps[j], addr);
      Offer(ps[j..], addr) ==
        if c.n != 0 then Offered(c.n, c.text, [c.after] + ps[j + 1..])
        else Prepend(c.text, [c.after], Offer(ps[j + 1..], addr))
  {
    assert ps[j..][0] == ps[j] && ps[j..][1..] == ps[j + 1..];
  }

  // ---------------------------------------------------------------------
  // What the renderer produces

  /** A printer that never claims or writes anything, at any address. */
  predicate Quiet(p: Printer)
  {
    forall a: Address :: Consume(p, a) == Printed(0, "", p)
  }

  /** The listing without printers: one address line and one db line per
      byte, at consecutive addresses. */
  function PlainListing(data: seq<byte>, base: Address, i: nat): string
    decreases |data| - i
  {
    if i >= |data| then ""
    else AddressLine(AddrAt(base, i)) + DbLine(data[i]) + PlainListing(data, base, i + 1)
  }

  lemma {:induction false} OfferQuiet(ps: seq<Printer>, addr: Address)
    requires forall k :: 0 <= k < |ps| ==> Quiet(ps[k])
    ensures Offer(ps, addr) == Offered(0, "", ps)
  {
    if ps != [] {
      assert Consume(ps[0], addr) == Printed(0, "", ps[0]);
      OfferQuiet(ps[1..], addr);
      assert [ps[0]] + ps[1..] == ps;
    }
  }

  /** When no offer is ever claimed or written to, every byte gets exactly
      one db line, in order, at its own address, and the printers are
      unchanged. */
  lemma {:induction false} RenderSilent(data: seq<byte>, base: Address, i: nat, ps: seq<Printer>, offer: OfferFn)
    requires forall a: Address :: offer(ps, a) == Offered(0, "", ps)
    ensures RenderFrom(data, base, i, ps, offer) == Rendered(PlainListing(data, base, i), ps)
    decreases |data| - i
  {
    if i < |data| {
      var addr := AddrAt(base, i);
      RenderSilent(data, base, i + 1, ps, offer);
      assert AddressLine(addr) + "" == AddressLine(addr);
      assert StepText(addr, "", 0, data[i]) == AddressLine(addr) + DbLine(data[i]);
    }
  }

  /** With printers that never fire, the section is listed byte by byte. */
  lemma RenderQuiet(data: seq<byte>, base: Address, ps: seq<Printer>)
    requires forall k :: 0 <= k < |ps| ==> Quiet(ps[k])
    ensures RenderFrom(data, base, 0, ps, Offer) == Rendered(PlainListing(data, base, 0), ps)
  {
    forall a: Address
      ensures Offer(ps, a) == Offered(0, "", ps)
    {
      OfferQuiet(ps, a);
    }
    RenderSilent(data, base, 0, ps, Offer);
  }

  /** Claimed bytes are skipped: when the first printer to claim bytes at
      offset `i` claims `n`, nothing is listed for offsets `i` to `i + n - 1`
      and the listing resumes at offset `i + n` (whose address is `base + i
      + n`, by AddrAtStep). */
  lemma ClaimedBytesSkipped(data: seq<byte>, base: Address, i: nat, ps: seq<Printer>, offer: OfferFn)
    requires i < |data|
    requires offer(ps, AddrAt(base, i)).n != 0
    ensures var o := offer(ps, AddrAt(base, i));
      var rest := RenderFrom(data, base, i + o.n, o.ps, offer);
      RenderFrom(data, base, i, ps, offer) == Rendered(AddressLine(AddrAt(base, i)) + o.text + rest.text, rest.ps)
  {
    var addr := AddrAt(base, i);
    var o := offer(ps, addr);
    assert StepText(addr, o.text, o.n, data[i]) == AddressLine(addr) + o.text + "";
    assert AddressLine(addr) + o.text + "" == AddressLine(addr) + o.text;
  }

  /** An example: `printf` statically linked at 0x401005, and a section
      holding its first five bytes and a `ret` after them. */
  const STUB_PRINTERS: seq<Printer> := [Static([StaticLib("libc.so.6", [StaticFunc(0x401005, "printf")])])]
  const STUB_DATA: seq<byte> := [0xE9, 0, 0, 0, 0, 0xC3]

  /** The byte after the stub is claimed by no printer and gets a db line. */
  lemma StaticStubTail()
    ensures RenderFrom(STUB_DATA, 0x401005, 5, STUB_PRINTERS, Offer) ==
      Rendered(AddressLine(0x40100A) + DbLine(0xC3), STUB_PRINTERS)
  {
    ExampleOffers();
    assert AddrAt(0x401005, 5) == 0x40100A;
    assert RenderFrom(STUB_DATA, 0x401005, 6, STUB_PRINTERS, Offer) == Rendered("", STUB_PRINTERS);
  }

  /** A jump stub over a statically linked function replaces its first five
      bytes; a byte no printer claims at that address gets a db line. */
  lemma StaticStubListing()
    ensures RenderFrom(STUB_DATA, 0x401005, 0, STUB_PRINTERS, Offer) ==
      Rendered(AddressLine(0x401005) + JmpLine("printf") + AddressLine(0x40100A) + DbLine(0xC3), STUB_PRINTERS)
  {
    var head, jmp, tail := AddressLine(0x401005), JmpLine("printf"), AddressLine(0x40100A) + DbLine(0xC3);
    ExampleOffers();
    assert AddrAt(0x401005, 0) == 0x401005;
    var o := Offer(STUB_PRINTERS, 0x401005);
    assert o == Offered(5, jmp, STUB_PRINTERS);
    ClaimedBytesSkipped(STUB_DATA, 0x401005, 0, STUB_PRINTERS, Offer);
    StaticStubTail();
    assert RenderFrom(STUB_DATA, 0x401005, 0, STUB_PRINTERS, Offer) == Rendered(head + jmp + tail, STUB_PRINTERS);
    ConcatAssoc(head + jmp, AddressLine(0x40100A), DbLine(0xC3));
  }

  /** The lines of that listing, spelled out: the addresses, */
  lemma ExampleAddressStrings()
    ensures AddressString(0x401005) == "0x401005"
    ensures AddressString(0x40100A) == "0x40100A"
  {
    ExampleHex();
  }

  /** the jump to the PLT entry, */
  lemma ExampleJmpLine()
    ensures JmpLine("printf") == "\tjmp     plt.printf\n"
  {
  }

  /** and the db line of the `ret` byte, which is not printable. */
  lemma ExampleDbLine()
    ensures DbLine(0xC3) == "\tdb      0xC3 ; |.|\n"
  {
    assert Hex2(0xC3) == "C3" by {
      assert HexDigit(12) == 'C' && HexDigit(3) == '3';
    }
    assert PrintChar(0xC3) == '.';
  }

  lemma ExampleOffers()
    ensures Offer(STUB_PRINTERS, 0x401005) == Offered(5, JmpLine("printf"), STUB_PRINTERS)
    ensures Offer(STUB_PRINTERS, 0x40100A) == Offered(0, "", STUB_PRINTERS)
  {
    var lib := StaticLib("libc.so.6", [StaticFunc(0x401005, "printf")]);
    assert FindStatic([lib], 0x401005) == Some((0, 0));
    assert FindStatic([lib], 0x40100A) == None;
  }

  /** `%X` of the two example addresses. */
  lemma ExampleHex()
    ensures FormatHex(0x401005) == "401005"
    ensures FormatHex(0x40100A) == "40100A"
  {
    assert FormatHex(0x4) == "4";
    assert FormatHex(0x40) == "40" by {
      assert HexDigit(0) == '0';
    }
    assert FormatHex(0x401) == "401" by {
      assert HexDigit(1) == '1';
    }
    assert FormatHex(0x4010) == "4010";
    assert FormatHex(0x40100) == "40100";
    assert FormatHex(0x401005) == "401005" by {
      assert HexDigit(5) == '5';
    }
    assert FormatHex(0x40100A) == "40100A" by {
      assert HexDigit(10) == 'A';
    }
  }

  // ---------------------------------------------------------------------
  // hexdump

  /** Slot `k` of a line: `0xXX`, preceded by ", " after the first, or six
      spaces past the end of a short line. */
  function HexSlot(line: seq<byte>, k: nat): string
  {
    if k < |line| then (if k != 0 then ", " else "") + "0x" + Hex2(line[k]) else "      "
  }

  /** Slots 0 to k - 1. */
  function HexSlots(line: seq<byte>, k: nat): string
  {
    if k == 0 then "" else HexSlots(line, k - 1) + HexSlot(line, k - 1)
  }

  /** The ASCII column: one character per byte. */
  function AsciiColumn(line: seq<byte>): (r: string)
    ensures |r| == |line| && forall k :: 0 <= k < |line| ==> r[k] == PrintChar(line[k])
  {
    if line == [] then "" else AsciiColumn(line[..|line| - 1]) + [PrintChar(line[|line| - 1])]
  }

  function HexLine(line: seq<byte>): string
  {
    "\tdb      " + HexSlots(line, 16) + " ; |" + AsciiColumn(line) + "|\n"
  }

  function Min(a: int, b: int): int
  {
    if a < b then a else b
  }

  /** The lines of a hexdump: 16 bytes per line, the last possibly
      shorter. */
  function HexdumpLines(data: seq<byte>): seq<string>
    decreases |data|
  {
    if data == [] then [] else [HexLine(data[..Min(16, |data|)])] + HexdumpLines(data[Min(16, |data|)..])
  }

  function Concat(lines: seq<string>): string
  {
    if lines == [] then "" else lines[0] + Concat(lines[1..])
  }

  /** A hexdump has one line per 16 bytes (rounding up), and line `i` shows
      bytes 16i to 16i + 15, in order. */
  lemma {:induction false} HexdumpLinesShape(data: seq<byte>)
    ensures |HexdumpLines(data)| == (|data| + 15) / 16
    ensures forall i :: 0 <= i < |HexdumpLines(data)| ==>
      HexdumpLines(data)[i] == HexLine(data[16 * i .. Min(16 * i + 16, |data|)])
    decreases |data|
  {
    if data != [] {
      var c := Min(16, |data|);
      var tail := data[c..];
      HexdumpLinesShape(tail);
      var lines := HexdumpLines(data);
      assert lines == [HexLine(data[..c])] + HexdumpLines(tail);
      forall i | 0 <= i < |lines|
        ensures lines[i] == HexLine(data[16 * i .. Min(16 * i + 16, |data|)])
      {
        if i > 0 {
          ChunkOfTail(data, i);
        }
      }
    }
  }

  /** Chunk `i - 1` of what follows the first 16 bytes is chunk `i`. */
  lemma ChunkOfTail(data: seq<byte>, i: nat)
    requires 16 <= |data| && 1 <= i && 16 * (i - 1) <= |data| - 16
    ensures var tail := data[16..];
      tail[16 * (i - 1) .. Min(16 * (i - 1) + 16, |tail|)] == data[16 * i .. Min(16 * i + 16, |data|)]
  {
    var tail := data[16..];
    var lo, hi := 16 * (i - 1), Min(16 * (i - 1) + 16, |tail|);
    assert hi + 16 == Min(16 * i + 16, |data|);
    assert forall k :: lo <= k < hi ==> tail[k] == data[k + 16];
  }

  /** Every hex column is 94 characters wide: short lines are padded. */
  lemma {:induction false} HexSlotsWidth(line: seq<byte>, k: nat)
    requires 1 <= k <= 16 && 1 <= |line|
    ensures |HexSlots(line, k)| == 6 * k - 2
  {
    if k > 1 {
      HexSlotsWidth(line, k - 1);
    }
  }

  lemma HexLineWidth(line: seq<byte>)
    requires 1 <= |line| <= 16
    ensures |HexLine(line)| == 9 + 94 + 4 + |line| + 2
  {
    HexSlotsWidth(line, 16);
  }

  /** hexdump: one line per chunk of 16 bytes, built slot by slot. */
  method Hexdump(data: seq<byte>) returns (s: string)
    ensures s == Concat(HexdumpLines(data))
  {
    s := "";
    var pos := 0;
    while pos < |data|
      invariant 0 <= pos <= |data|
      invariant s + Concat(HexdumpLines(data[pos..])) == Concat(HexdumpLines(data))
      decreases |data| - pos
    {
      var end := pos + 16;
      if end > |data| {
        end := |data|;
      }
      var line := data[pos..end];
      HexdumpStep(data, pos, end);
      var hex := HexColumn(line);
      var ascii := AsciiOf(line);
      assert "\tdb      " + hex + " ; |" + ascii + "|\n" == HexLine(line);
      ConcatAssoc(s, HexLine(line), Concat(HexdumpLines(data[end..])));
      s := s + ("\tdb      " + hex + " ; |" + ascii + "|\n");
      pos := end;
    }
  }

  /** The hexdump from `pos` on is the line of bytes `pos` to `end`, then
      the hexdump from `end` on. */
  lemma HexdumpStep(data: seq<byte>, pos: nat, end: nat)
    requires pos < |data| && end == Min(pos + 16, |data|)
    ensures Concat(HexdumpLines(data[pos..])) == HexLine(data[pos..end]) + Concat(HexdumpLines(data[end..]))
  {
    var rest := data[pos..];
    var c := Min(16, |rest|);
    assert c == end - pos;
    assert rest[..c] == data[pos..end];
    assert rest[c..] == data[end..];
    assert HexdumpLines(rest) == [HexLine(data[pos..end])] + HexdumpLines(data[end..]);
  }

  /** The 16 slots of one hexdump line. */
  method HexColumn(line: seq<byte>) returns (hex: string)
    ensures hex == HexSlots(line, 16)
  {
    hex := "";
    for i := 0 to 16
      invariant hex == HexSlots(line, i)
    {
      if i < |line| {
        if i != 0 {
          hex := hex + ", ";
        }
        hex := hex + "0x" + Hex2(line[i]);
      } else {
        hex := hex + "      ";
      }
    }
  }

  /** The ASCII column of one hexdump line. */
  method AsciiOf(line: seq<byte>) returns (ascii: string)
    ensures ascii == AsciiColumn(line)
  {
    ascii := "";
    for k := 0 to |line|
      invariant ascii == AsciiColumn(line[..k])
    {
      assert line[..k + 1][..k] == line[..k];
      ascii := ascii + [PrintChar(line[k])];
    }
    assert line[..|line|] == line;
  }

  /** An empty input gives an empty hexdump. */
  lemma HexdumpEmpty()
    ensures Concat(HexdumpLines([])) == ""
  {
  }

  // ---------------------------------------------------------------------
  // Headings

  /** The opening of a heading: `; `, three rule characters, ` [`, and a
      slash for a closing heading. */
  function HeadingOpen(rule: char, closing: bool): string
  {
    "; " + [rule, rule, rule] + (if closing then " [/ " else " [ ")
  }

  /** The 80-column heading shared by h0, h0End, h2 and h2End: the opening,
      the title, ` ] `, then the rule character up to column 80. */
  function Heading(rule: char, closing: bool, title: string): (r: string)
    requires |HeadingOpen(rule, closing)| + |title| + 3 <= 80
    ensures var n := |HeadingOpen(rule, closing)|;
      |r| == 80 && r[..n] == HeadingOpen(rule, closing) && r[n..n + |title|] == title
      && r[n + |title|..n + |title| + 3] == " ] "
      && forall k :: n + |title| + 3 <= k < 80 ==> r[k] == rule
  {
    var head := HeadingOpen(rule, closing) + title + " ] ";
    head + Repeat(rule, 80 - |head|)
  }

  /** h0: `; ___ [ title ] ___...`. */
  function H0(title: string): string
    requires |title| <= 69
  {
    Heading('_', false, title)
  }

  /** h0End: `; ___ [/ title ] ___...`. */
  function H0End(title: string): string
    requires |title| <= 68
  {
    Heading('_', true, title)
  }

  /** h2: `; --- [ title ] ---...`. */
  function H2(title: string): string
    requires |title| <= 69
  {
    Heading('-', false, title)
  }

  /** h2End: `; --- [/ title ] ---...`. */
  function H2End(title: string): string
    requires |title| <= 68
  {
    Heading('-', true, title)
  }

  // ---------------------------------------------------------------------
  // NASM identifiers

  predicate IsIdentChar(c: char)
  {
    'a' <= c <= 'z' || 'A' <= c <= 'Z' || '0' <= c <= '9' || c == '_'
  }

  /** nasmIdent: every character outside [A-Za-z0-9_] becomes '_'. */
  function NasmIdent(s: string): (r: string)
    ensures |r| == |s|
    ensures forall i :: 0 <= i < |s| ==> IsIdentChar(r[i])
    ensures forall i :: 0 <= i < |s| && IsIdentChar(s[i]) ==> r[i] == s[i]
    ensures forall i :: 0 <= i < |s| && !IsIdentChar(s[i]) ==> r[i] == '_'
  {
    seq(|s|, i requires 0 <= i < |s| => if IsIdentChar(s[i]) then s[i] else '_')
  }

  /** A name is left alone exactly when it is already an identifier. */
  lemma NasmIdentFixed(s: string)
    ensures NasmIdent(s) == s <==> forall i :: 0 <= i < |s| ==> IsIdentChar(s[i])
  {
    if NasmIdent(s) == s {
      assert forall i :: 0 <= i < |s| ==> IsIdentChar(NasmIdent(s)[i]);
    }
  }

  lemma NasmIdentIdempotent(s: string)
    ensures NasmIdent(NasmIdent(s)) == NasmIdent(s)
  {
    NasmIdentFixed(NasmIdent(s));
  }

  // ---------------------------------------------------------------------
  // ELF flags

  type ProgFlag = bv32
  type SectionFlag = bv32

  const PF_X: ProgFlag := 0x1
  const PF_W: ProgFlag := 0x2
  const PF_R: ProgFlag := 0x4

  const SHF_WRITE: SectionFlag := 0x1
  const SHF_ALLOC: SectionFlag := 0x2
  const SHF_EXECINSTR: SectionFlag := 0x4

  /** elfProgFlag: PF_R, PF_W and PF_X for R, W and X. */
  function ElfProgFlag(perm: Perm): ProgFlag
  {
    var flags: ProgFlag := 0;
    var flags := if perm & PermR != 0 then flags | PF_R else flags;
    var flags := if perm & PermW != 0 then flags | PF_W else flags;
    if perm & PermX != 0 then flags | PF_X else flags
  }

  /** elfSectionFlag: always SHF_ALLOC, plus SHF_WRITE and SHF_EXECINSTR for
      W and X; ELF sections are always readable, so R adds nothing. */
  function ElfSectionFlag(perm: Perm): SectionFlag
  {
    var flags: SectionFlag := SHF_ALLOC;
    var flags := if perm & PermW != 0 then flags | SHF_WRITE else flags;
    if perm & PermX != 0 then flags | SHF_EXECINSTR else flags
  }

  lemma ElfProgFlagBits(perm: Perm)
    ensures (ElfProgFlag(perm) & PF_R != 0) <==> (perm & PermR != 0)
    ensures (ElfProgFlag(perm) & PF_W != 0) <==> (perm & PermW != 0)
    ensures (ElfProgFlag(perm) & PF_X != 0) <==> (perm & PermX != 0)
    ensures ElfProgFlag(perm) & !(PF_R | PF_W | PF_X) == 0
  {
  }

  /** The permission bits and the ELF program flags share their layout. */
  lemma ElfProgFlagSameBits(perm: Perm)
    ensures ElfProgFlag(perm) == (perm & 7) as bv32
  {
  }

  lemma ElfSectionFlagBits(perm: Perm)
    ensures ElfSectionFlag(perm) & SHF_ALLOC != 0
    ensures (ElfSectionFlag(perm) & SHF_WRITE != 0) <==> (perm & PermW != 0)
    ensures (ElfSectionFlag(perm) & SHF_EXECINSTR != 0) <==> (perm & PermX != 0)
    ensures ElfSectionFlag(perm) & !(SHF_ALLOC | SHF_WRITE | SHF_EXECINSTR) == 0
    ensures ElfSectionFlag(perm | PermR) == ElfSectionFlag(perm & !PermR)
  {
  }

  /** The padding between sections in dumpSect: int3 for executable
      sections, zero bytes otherwise. */
  function SectPad(perm: Perm): (pad: string)
    ensures pad == "int3" <==> perm & PermX != 0
    ensures pad != "int3" ==> pad == "db 0x00"
  {
    if perm & PermX != 0 then "int3" else "db 0x00"
  }
}
