/** The redirector: content-overlay pretty-printers that the section
    renderer offers each address to. The PE import printer rewrites the
    original Import Address Table (section 6.4, "The .idata Section", of the
    Microsoft PE/COFF specification: one 32-bit slot per import of a PE32
    image and a null slot per library) into jumps to ELF PLT stubs; the
    static-library printer rewrites the entry of each statically linked
    function into a jump to its PLT stub.

    Go closures become a datatype with a `Consume` function; the state a
    closure captures becomes fields, and a firing that changes that state
    returns the printer to use afterwards. */
module Redirect {
  import opened Text
  import opened Addr
  import opened Records
  import opened Imports

  datatype Printer =
      /** The PE import printer: fires at `addr`, reports `size` bytes, and
          writes `text`, the part of its buffer not yet drained. */
    | LibImps(addr: Address, size: nat, text: string)
      /** The static-library printer. */
    | Static(libs: seq<StaticLib>)

  /** What one printer did at one address: bytes claimed (0 for none), text
      written, and the printer afterwards. */
  datatype Printed = Printed(n: nat, text: string, after: Printer)

  /** Bytes claimed for a near relative `jmp`. */
  const JMP_SIZE: nat := 5

  function JmpLine(name: string): string
  {
    "\tjmp     plt." + name + "\n"
  }

  // ---------------------------------------------------------------------
  // Static-library printer

  /** The first function of `funcs` at `addr`. */
  function FindStaticIn(funcs: seq<StaticFunc>, addr: Address): (j: Option<nat>)
    ensures j.Some? ==> j.value < |funcs|
  {
    if funcs == [] then None
    else if funcs[0].addr == addr then Some(0)
    else match FindStaticIn(funcs[1..], addr)
      case None => None
      case Some(j) => Some(j + 1)
  }

  /** The first statically linked function at `addr`, in library order and
      then function order, as (library index, function index). */
  function FindStatic(libs: seq<StaticLib>, addr: Address): (r: Option<(nat, nat)>)
    ensures r.Some? ==> r.value.0 < |libs| && r.value.1 < |libs[r.value.0].funcs|
  {
    if libs == [] then None
    else match FindStaticIn(libs[0].funcs, addr)
      case Some(j) => Some((0, j))
      case None =>
        match FindStatic(libs[1..], addr)
        case None => None
        case Some((i, j)) => Some((i + 1, j))
  }

  /** The search within one library finds the first function at `addr`. */
  lemma {:induction false} FindStaticInFirst(funcs: seq<StaticFunc>, addr: Address)
    ensures var j := FindStaticIn(funcs, addr);
      (j.Some? ==> funcs[j.value].addr == addr && forall k :: 0 <= k < j.value ==> funcs[k].addr != addr)
      && (j.None? ==> forall k :: 0 <= k < |funcs| ==> funcs[k].addr != addr)
  {
    if funcs != [] && funcs[0].addr != addr {
      FindStaticInFirst(funcs[1..], addr);
    }
  }

  /** The search finds the first function at `addr` in library order and
      then function order, and finds none only when no function is there. */
  lemma {:induction false} FindStaticFirst(libs: seq<StaticLib>, addr: Address)
    ensures var r := FindStatic(libs, addr);
      (r.Some? ==> libs[r.value.0].funcs[r.value.1].addr == addr)
      && (r.Some? ==> forall i, k :: 0 <= i < r.value.0 && 0 <= k < |libs[i].funcs| ==>
        libs[i].funcs[k].addr != addr)
      && (r.Some? ==> forall k :: 0 <= k < r.value.1 ==> libs[r.value.0].funcs[k].addr != addr)
      && (r.None? ==> forall i, k :: 0 <= i < |libs| && 0 <= k < |libs[i].funcs| ==>
        libs[i].funcs[k].addr != addr)
  {
    if libs != [] {
      FindStaticInFirst(libs[0].funcs, addr);
      if FindStaticIn(libs[0].funcs, addr).None? {
        FindStaticFirst(libs[1..], addr);
        var r := FindStatic(libs, addr);
        if r.Some? {
          forall i, k | 0 <= i < r.value.0 && 0 <= k < |libs[i].funcs|
            ensures libs[i].funcs[k].addr != addr
          {
            if i > 0 {
              assert libs[i] == libs[1..][i - 1];
            }
          }
        } else {
          forall i, k | 0 <= i < |libs| && 0 <= k < |libs[i].funcs|
            ensures libs[i].funcs[k].addr != addr
          {
            if i > 0 {
              assert libs[i] == libs[1..][i - 1];
            }
          }
        }
      }
    }
  }

  /** getStaticLibsPrinter. */
  function StaticLibsPrinter(staticLibs: seq<StaticLib>): Printer
  {
    Static(staticLibs)
  }

  // ---------------------------------------------------------------------
  // Offering an address to one printer

  function Consume(p: Printer, addr: Address): Printed
  {
    match p
    case LibImps(at, size, text) =>
      if addr == at then Printed(size, text, LibImps(at, size, "")) else Printed(0, "", p)
    case Static(libs) =>
      match FindStatic(libs, addr)
      case Some((i, j)) => Printed(JMP_SIZE, JmpLine(libs[i].funcs[j].name), p)
      case None => Printed(0, "", p)
  }

  /** The static printer claims 5 bytes exactly at the address of some
      statically linked function and writes a jump to the first such
      function; elsewhere it claims nothing and writes nothing. It has no
      state to change. */
  lemma StaticPrinterClaims(libs: seq<StaticLib>, addr: Address)
    ensures var r := Consume(Static(libs), addr);
      r.after == Static(libs)
      && (r.n == JMP_SIZE <==> exists i, k :: 0 <= i < |libs| && 0 <= k < |libs[i].funcs| && libs[i].funcs[k].addr == addr)
      && (r.n == 0 <==> r.n != JMP_SIZE)
      && (r.n == 0 ==> r.text == "")
    ensures var r := Consume(Static(libs), addr);
      r.n != 0 ==>
        exists i, k :: 0 <= i < |libs| && 0 <= k < |libs[i].funcs|
          && libs[i].funcs[k].addr == addr && r.text == JmpLine(libs[i].funcs[k].name)
          && (forall i' :: 0 <= i' < i ==> forall k' :: 0 <= k' < |libs[i'].funcs| ==> libs[i'].funcs[k'].addr != addr)
          && (forall k' :: 0 <= k' < k ==> libs[i].funcs[k'].addr != addr)
  {
    FindStaticFirst(libs, addr);
    match FindStatic(libs, addr)
    case None =>
    case Some((i, k)) =>
  }

  /** The import printer claims its size at its address and nothing
      elsewhere; firing drains its text, so a second firing writes nothing
      but still claims the full size. */
  lemma LibImpsPrinterClaims(at: Address, size: nat, text: string, addr: Address)
    ensures var r := Consume(LibImps(at, size, text), addr);
      (addr == at ==> r == Printed(size, text, LibImps(at, size, "")))
      && (addr != at ==> r == Printed(0, "", LibImps(at, size, text)))
    ensures var r := Consume(LibImps(at, size, text), at);
      Consume(r.after, at) == Printed(size, "", LibImps(at, size, ""))
  {
  }

  // ---------------------------------------------------------------------
  // PE import printer

  /** 4 bytes per imported function plus a terminating null entry, summed
      over the libraries. */
  function ImpsSize(libs: seq<Library>): nat
  {
    if libs == [] then 0
    else ImpsSize(libs[..|libs| - 1]) + 4 * (|libs[|libs| - 1].funcs| + 1)
  }

  /** The same sum over the PE's own imports. */
  function IATSize(imps: seq<Import>): nat
  {
    if imps == [] then 0
    else IATSize(imps[..|imps| - 1]) + 4 * (|imps[|imps| - 1].iats| + 1)
  }

  lemma {:induction false} ImpsSizeAppend(a: seq<Library>, b: seq<Library>)
    ensures ImpsSize(a + b) == ImpsSize(a) + ImpsSize(b)
    decreases |b|
  {
    if b != [] {
      ImpsSizeAppend(a, b[..|b| - 1]);
      assert (a + b)[..|a + b| - 1] == a + b[..|b| - 1];
    } else {
      assert a + b == a;
    }
  }

  /** The size does not depend on the order of the libraries. */
  lemma {:induction false} ImpsSizePermutation(a: seq<Library>, b: seq<Library>)
    requires multiset(a) == multiset(b)
    ensures ImpsSize(a) == ImpsSize(b)
    decreases |a|
  {
    if a == [] {
      assert |b| == |multiset(b)| == 0;
    } else {
      var n := |a| - 1;
      var x := a[n];
      assert a == a[..n] + [x];
      assert x in multiset(b);
      var j :| 0 <= j < |b| && b[j] == x;
      var b' := b[..j] + b[j + 1..];
      assert b == b[..j] + [x] + b[j + 1..];
      assert multiset(b) == multiset(b[..j]) + multiset{x} + multiset(b[j + 1..]);
      assert multiset(a) == multiset(a[..n]) + multiset{x};
      assert multiset(b') == multiset(b[..j]) + multiset(b[j + 1..]);
      assert multiset(a[..n]) == multiset(a) - multiset{x};
      assert multiset(b') == multiset(b) - multiset{x};
      ImpsSizePermutation(a[..n], b');
      ImpsSizeAppend(b[..j] + [x], b[j + 1..]);
      ImpsSizeAppend(b[..j], [x]);
      ImpsSizeAppend(b[..j], b[j + 1..]);
      assert ([] + [x])[..0] == [];
    }
  }

  /** The parsed libraries take as much IAT space as the PE's imports. */
  lemma {:induction false} ImpsSizeOfImports(file: PEFile)
    ensures ImpsSize(ParseImports(file)) == IATSize(file.imps)
    decreases |file.imps|
  {
    var libs := ParseImports(file);
    if file.imps != [] {
      var n := |file.imps| - 1;
      var prev := file.(imps := file.imps[..n]);
      ImpsSizeOfImports(prev);
      assert libs[..n] == ParseImports(prev);
      assert |libs[n].funcs| == |file.imps[n].iats|;
    }
  }

  /** Sorting keeps the IAT size of the PE's imports. */
  lemma ImpsSizeSorted(file: PEFile)
    ensures ImpsSize(ImportsByRelAddr(file)) == IATSize(file.imps)
  {
    ImpsSizePermutation(ImportsByRelAddr(file), ParseImports(file));
    ImpsSizeOfImports(file);
  }

  /** The IAT relative address recorded for each library name; a later
      import of the same name overwrites an earlier one. */
  function RelAddrMap(imps: seq<Import>): (m: map<string, u32>)
    ensures forall i :: 0 <= i < |imps| ==> BaseName(imps[i].dllName) in m
  {
    if imps == [] then map[]
    else
      var n := |imps| - 1;
      RelAddrMap(imps[..n])[BaseName(imps[n].dllName) := imps[n].iatRelAddr]
  }

  /** Import `i` is the last one of library `k`. */
  predicate LastImportOf(imps: seq<Import>, k: string, i: int)
  {
    0 <= i < |imps| && BaseName(imps[i].dllName) == k
    && forall j :: i < j < |imps| ==> BaseName(imps[j].dllName) != k
  }

  lemma LastImportOfExtend(imps: seq<Import>, k: string, i: int)
    requires imps != [] && LastImportOf(imps[..|imps| - 1], k, i)
    requires BaseName(imps[|imps| - 1].dllName) != k
    ensures LastImportOf(imps, k, i)
  {
    var prev := imps[..|imps| - 1];
    forall j | i < j < |imps| ensures BaseName(imps[j].dllName) != k {
      if j < |prev| {
        assert imps[j] == prev[j];
      }
    }
  }

  /** The map holds exactly the imports' library names, each with the IAT
      relative address of the last import of that name. */
  lemma {:induction false} RelAddrMapLastWins(imps: seq<Import>)
    ensures forall k :: k in RelAddrMap(imps) ==>
      exists i :: LastImportOf(imps, k, i) && RelAddrMap(imps)[k] == imps[i].iatRelAddr
  {
    if imps != [] {
      var n := |imps| - 1;
      var prev := imps[..n];
      RelAddrMapLastWins(prev);
      var m := RelAddrMap(imps);
      forall k | k in m
        ensures exists i :: LastImportOf(imps, k, i) && m[k] == imps[i].iatRelAddr
      {
        if k == BaseName(imps[n].dllName) {
          assert LastImportOf(imps, k, n);
        } else {
          var i :| LastImportOf(prev, k, i) && RelAddrMap(prev)[k] == prev[i].iatRelAddr;
          LastImportOfExtend(imps, k, i);
          assert imps[i] == prev[i];
        }
      }
    }
  }

  /** No IAT is at relative address 0, the loop's "unset" marker. */
  predicate NoZeroRelAddr(m: map<string, u32>)
  {
    forall k :: k in m ==> m[k] != 0
  }

  /** Every library has an entry in the map. */
  predicate Keyed(libs: seq<Library>, m: map<string, u32>)
  {
    forall i :: 0 <= i < |libs| ==> libs[i].name in m
  }

  predicate SortedByRelAddr(libs: seq<Library>, m: map<string, u32>)
    requires Keyed(libs, m)
  {
    forall i, j :: 0 <= i < j < |libs| ==> m[libs[i].name] <= m[libs[j].name]
  }

  /** No library's relative address is below `k`. */
  predicate AtLeast(libs: seq<Library>, m: map<string, u32>, k: int)
    requires Keyed(libs, m)
  {
    forall i :: 0 <= i < |libs| ==> k <= m[libs[i].name]
  }

  /** Inserts `lib` before the first library with a relative address not
      below its own. */
  function InsertByRelAddr(lib: Library, libs: seq<Library>, m: map<string, u32>): (r: seq<Library>)
    requires lib.name in m && Keyed(libs, m)
    ensures multiset(r) == multiset(libs) + multiset{lib}
    ensures Keyed(r, m)
  {
    if libs == [] then [lib]
    else if m[lib.name] <= m[libs[0].name] then [lib] + libs
    else
      assert libs == [libs[0]] + libs[1..];
      [libs[0]] + InsertByRelAddr(lib, libs[1..], m)
  }

  /** sort.Slice of the libraries by IAT relative address, as an insertion
      sort: one of the orders sort.Slice may produce. */
  function SortByRelAddr(libs: seq<Library>, m: map<string, u32>): (r: seq<Library>)
    requires Keyed(libs, m)
    ensures multiset(r) == multiset(libs)
    ensures Keyed(r, m)
  {
    if libs == [] then []
    else
      assert libs == [libs[0]] + libs[1..];
      InsertByRelAddr(libs[0], SortByRelAddr(libs[1..], m), m)
  }

  lemma {:induction false} InsertAtLeast(lib: Library, libs: seq<Library>, m: map<string, u32>, k: int)
    requires lib.name in m && Keyed(libs, m)
    requires AtLeast(libs, m, k) && k <= m[lib.name]
    ensures AtLeast(InsertByRelAddr(lib, libs, m), m, k)
    decreases |libs|
  {
    if libs != [] && m[lib.name] > m[libs[0].name] {
      InsertAtLeast(lib, libs[1..], m, k);
    }
  }

  lemma {:induction false} InsertSorted(lib: Library, libs: seq<Library>, m: map<string, u32>)
    requires lib.name in m && Keyed(libs, m)
    requires SortedByRelAddr(libs, m)
    ensures SortedByRelAddr(InsertByRelAddr(lib, libs, m), m)
    decreases |libs|
  {
    if libs != [] {
      var y, tail := libs[0], libs[1..];
      if m[lib.name] <= m[y.name] {
        assert AtLeast(libs, m, m[lib.name]);
      } else {
        assert SortedByRelAddr(tail, m);
        assert AtLeast(tail, m, m[y.name]);
        InsertSorted(lib, tail, m);
        InsertAtLeast(lib, tail, m, m[y.name]);
        var rest := InsertByRelAddr(lib, tail, m);
        var r := [y] + rest;
        forall i, j | 0 <= i < j < |r| ensures m[r[i].name] <= m[r[j].name] {
          assert r[j] == rest[j - 1];
          if i > 0 {
            assert r[i] == rest[i - 1];
          }
        }
      }
    }
  }

  /** The sort leaves the libraries in ascending order of IAT relative
      address. */
  lemma {:induction false} SortByRelAddrSorted(libs: seq<Library>, m: map<string, u32>)
    requires Keyed(libs, m)
    ensures SortedByRelAddr(SortByRelAddr(libs, m), m)
    decreases |libs|
  {
    if libs != [] {
      SortByRelAddrSorted(libs[1..], m);
      InsertSorted(libs[0], SortByRelAddr(libs[1..], m), m);
    }
  }

  /** The buffer's text: each library rendered in order. */
  function RenderAll(libs: seq<Library>, render: Library -> string): string
  {
    if libs == [] then "" else RenderAll(libs[..|libs| - 1], render) + render(libs[|libs| - 1])
  }

  /** Every parsed library has an entry in the relative address map, so the
      sort's "not present in original PE file" panic cannot happen. */
  lemma ParsedLibrariesHaveRelAddr(file: PEFile)
    ensures Keyed(ParseImports(file), RelAddrMap(file.imps))
  {
  }

  /** `rel` is what the source's loop leaves as the smallest IAT relative
      address of the keys `ks`: 0 ("unset") or one of their addresses, and,
      when no address is 0, the smallest one. */
  predicate SmallestRelAddr(m: map<string, u32>, ks: set<string>, rel: int)
    requires ks <= m.Keys
  {
    (rel == 0 || exists k :: k in ks && m[k] == rel)
    && (NoZeroRelAddr(m) && ks != {} ==> rel != 0)
    && (NoZeroRelAddr(m) ==> forall k :: k in ks ==> rel <= m[k])
  }

  /** Without an IAT at relative address 0, the loop's result does not
      depend on Go's map iteration order: it is the minimum. */
  lemma SmallestRelAddrUnique(m: map<string, u32>, a: int, b: int)
    requires NoZeroRelAddr(m)
    requires SmallestRelAddr(m, m.Keys, a) && SmallestRelAddr(m, m.Keys, b)
    ensures a == b
    ensures m != map[] ==> exists k :: k in m && m[k] == a && forall k' :: k' in m ==> a <= m[k']
  {
    if m == map[] {
      assert m.Keys == {};
    } else {
      var k :| k in m;
      assert m.Keys != {};
      var ka :| ka in m && m[ka] == a;
      var kb :| kb in m && m[kb] == b;
    }
  }

  /** The parsed libraries in the order of their IAT relative addresses. */
  function ImportsByRelAddr(file: PEFile): (libs: seq<Library>)
    ensures multiset(libs) == multiset(ParseImports(file))
  {
    ParsedLibrariesHaveRelAddr(file);
    SortByRelAddr(ParseImports(file), RelAddrMap(file.imps))
  }

  /** The first loop of getLibImpsPrinter: the relative address map. */
  method RecordRelAddrs(imps: seq<Import>) returns (m: map<string, u32>)
    ensures m == RelAddrMap(imps)
  {
    m := map[];
    var i := 0;
    while i < |imps|
      invariant 0 <= i <= |imps|
      invariant m == RelAddrMap(imps[..i])
    {
      assert imps[..i + 1][..i] == imps[..i];
      m := m[BaseName(imps[i].dllName) := imps[i].iatRelAddr];
      i := i + 1;
    }
    assert imps[..i] == imps;
  }

  /** The minimum loop of getLibImpsPrinter, over Go's unordered map
      iteration (each step picks any key not yet visited). */
  method FindSmallestRelAddr(m: map<string, u32>) returns (minRel: int)
    ensures SmallestRelAddr(m, m.Keys, minRel)
  {
    minRel := 0;
    var keys := m.Keys;
    ghost var seen: set<string> := {};
    while keys != {}
      invariant keys + seen == m.Keys && keys !! seen
      invariant SmallestRelAddr(m, seen, minRel)
      decreases |keys|
    {
      var k :| k in keys;
      if minRel == 0 || m[k] < minRel {
        minRel := m[k];
      }
      keys, seen := keys - {k}, seen + {k};
    }
    assert seen == m.Keys;
  }

  /** The size loop of getLibImpsPrinter. */
  method SumImpsSize(libs: seq<Library>) returns (size: nat)
    ensures size == ImpsSize(libs)
  {
    size := 0;
    var i := 0;
    while i < |libs|
      invariant 0 <= i <= |libs|
      invariant size == ImpsSize(libs[..i])
    {
      assert libs[..i + 1][..i] == libs[..i];
      size := size + 4 * (|libs[i].funcs| + 1);
      i := i + 1;
    }
    assert libs[..i] == libs;
  }

  /** The render loop of getLibImpsPrinter. */
  method RenderLibs(libs: seq<Library>, render: Library -> string) returns (text: string)
    ensures text == RenderAll(libs, render)
  {
    text := "";
    var i := 0;
    while i < |libs|
      invariant 0 <= i <= |libs|
      invariant text == RenderAll(libs[..i], render)
    {
      assert libs[..i + 1][..i] == libs[..i];
      text := text + render(libs[i]);
      i := i + 1;
    }
    assert libs[..i] == libs;
  }

  /** The order the import printer renders the libraries in: the parsed
      libraries, each once, in ascending order of IAT relative address. */
  lemma ImportsByRelAddrOrder(file: PEFile)
    ensures var libs := ImportsByRelAddr(file);
      Keyed(libs, RelAddrMap(file.imps)) && SortedByRelAddr(libs, RelAddrMap(file.imps))
      && multiset(libs) == multiset(ParseImports(file))
  {
    ParsedLibrariesHaveRelAddr(file);
    SortByRelAddrSorted(ParseImports(file), RelAddrMap(file.imps));
  }

  /** getLibImpsPrinter: record each library's IAT relative address, sort
      the parsed libraries by it, render them into the buffer, find the
      smallest relative address (with 0 meaning "unset") and add up the IAT
      size. `render` stands for the lib_imps template. */
  method LibImpsPrinter(file: PEFile, render: Library -> string) returns (p: Printer)
    ensures p.LibImps?
    ensures p.size == IATSize(file.imps)
    ensures p.text == RenderAll(ImportsByRelAddr(file), render)
    ensures var m := RelAddrMap(file.imps);
      exists rel :: SmallestRelAddr(m, m.Keys, rel) && p.addr == (file.imageBase + rel) % U64_MODULUS
  {
    var m := RecordRelAddrs(file.imps);
    var impLibs := ImportsByRelAddr(file);
    var text := RenderLibs(impLibs, render);
    var minRel := FindSmallestRelAddr(m);
    var size := SumImpsSize(impLibs);
    ImpsSizeSorted(file);
    p := LibImps((file.imageBase + minRel) % U64_MODULUS, size, text);
  }
}
