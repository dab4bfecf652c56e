/** Imported libraries of the relinker: the normalised library name
    (`libName`), the libraries of the PE import directory (`parseImports`),
    and the libraries spliced in for statically linked code (`relink`). */
module Imports {
  import opened Text
  import opened Records

  // ---------------------------------------------------------------------
  // File name extensions (Go's filepath.Ext and pathutil.TrimExt on '/')

  /** Start of the last path element: just after the last '/', or 0. */
  function ElemStart(f: string): (l: nat)
    ensures l <= |f| && (l == 0 || f[l - 1] == '/')
    ensures forall j :: l <= j < |f| ==> f[j] != '/'
  {
    if f == [] then 0
    else if f[|f| - 1] == '/' then |f|
    else ElemStart(f[..|f| - 1])
  }

  /** filepath.Ext's scan: backwards from `i`, stopping at a separator; the
      first dot met starts the extension. Gives its index, or |f| if none. */
  function ExtScan(f: string, i: nat): (k: nat)
    requires i <= |f|
    ensures k <= |f|
  {
    if i == 0 || f[i - 1] == '/' then |f|
    else if f[i - 1] == '.' then i - 1
    else ExtScan(f, i - 1)
  }

  /** pathutil.TrimExt: the path without its extension. */
  function TrimExt(f: string): string
  {
    f[..ExtScan(f, |f|)]
  }

  /** First dot at or after `l`, or |f| if none. */
  function FirstDot(f: string, l: nat): (r: nat)
    requires l <= |f|
    ensures l <= r <= |f| && (r == |f| || f[r] == '.')
    ensures forall j :: l <= j < r ==> f[j] != '.'
    decreases |f| - l
  {
    if l == |f| then |f| else if f[l] == '.' then l else FirstDot(f, l + 1)
  }

  /** libName's loop: trim extensions until trimming changes nothing. */
  function StripExts(f: string): (r: string)
    ensures |r| <= |f| && r == f[..|r|]
    decreases |f|
  {
    var s := TrimExt(f);
    if s == f then f
    else
      var r := StripExts(s);
      assert r == f[..|r|];
      r
  }

  /** libName: the lower-cased file name with every trailing extension
      stripped. */
  function BaseName(filename: string): string
  {
    StripExts(ToLower(filename))
  }

  /** libName, as the source writes it: lower-case, then trim extensions in
      a loop until a fixed point is reached. */
  method LibName(filename: string) returns (name: string)
    ensures name == BaseName(filename)
  {
    var f := ToLower(filename);
    while true
      invariant StripExts(f) == BaseName(filename)
      decreases |f|
    {
      var s := TrimExt(f);
      if s == f {
        return s;
      }
      f := s;
    }
  }

  // ---------------------------------------------------------------------
  // What libName computes

  /** The extension scan finds the last dot of the last path element. */
  lemma {:induction false} ExtScanSpec(f: string, i: nat)
    requires ElemStart(f) <= i <= |f|
    ensures var k := ExtScan(f, i);
      (k == |f| && forall j :: ElemStart(f) <= j < i ==> f[j] != '.')
      || (ElemStart(f) <= k < i && f[k] == '.' && forall j :: k < j < i ==> f[j] != '.')
    decreases i
  {
    if i > ElemStart(f) && f[i - 1] != '.' {
      ExtScanSpec(f, i - 1);
    }
  }

  /** A prefix that keeps the last path element's start keeps that start. */
  lemma {:induction false} ElemStartPrefix(f: string, k: nat)
    requires ElemStart(f) <= k <= |f|
    ensures ElemStart(f[..k]) == ElemStart(f)
  {
    var g := f[..k];
    var l, m := ElemStart(f), ElemStart(g);
    assert l > 0 ==> g[l - 1] == '/';
    assert m > 0 ==> f[m - 1] == '/';
  }

  /** libName keeps what comes before the first dot of the last path
      element: `libc.so.6` and `libc.so` both become `libc`. */
  lemma {:induction false} StripExtsClosedForm(f: string)
    ensures StripExts(f) == f[..FirstDot(f, ElemStart(f))]
    decreases |f|
  {
    var l := ElemStart(f);
    var k := ExtScan(f, |f|);
    ExtScanSpec(f, |f|);
    if k == |f| {
      assert TrimExt(f) == f;
    } else {
      var g := f[..k];
      assert TrimExt(f) == g && g != f;
      StripExtsClosedForm(g);
      ElemStartPrefix(f, k);
      var c := FirstDot(f, l);
      assert c <= k;
      var c' := FirstDot(g, l);
      if c < k {
        assert g[c] == '.';
        assert c' == c;
      } else {
        assert c' == k;
      }
      assert g[..c'] == f[..c];
    }
  }

  /** Nothing that libName returns has an extension left. */
  lemma StripExtsNoExt(f: string)
    ensures TrimExt(StripExts(f)) == StripExts(f)
    decreases |f|
  {
    if TrimExt(f) != f {
      StripExtsNoExt(TrimExt(f));
    }
  }

  lemma ToLowerPrefix(f: string, n: nat)
    requires n <= |f| && ToLower(f) == f
    ensures ToLower(f[..n]) == f[..n]
  {
  }

  /** libName is idempotent. */
  lemma BaseNameIdempotent(filename: string)
    ensures BaseName(BaseName(filename)) == BaseName(filename)
  {
    var f := ToLower(filename);
    var r := StripExts(f);
    ToLowerIdempotent(filename);
    ToLowerPrefix(f, |r|);
    StripExtsNoExt(f);
  }

  /** What libName returns is already lower case. */
  lemma BaseNameLower(filename: string)
    ensures ToLower(BaseName(filename)) == BaseName(filename)
  {
    var f := ToLower(filename);
    ToLowerIdempotent(filename);
    ToLowerPrefix(f, |StripExts(f)|);
  }

  /** A name that libName leaves alone is recovered from its `.so` file
      name. */
  lemma BaseNameOfSoname(name: string)
    requires BaseName(name) == name
    ensures BaseName(name + ".so") == name
  {
    BaseNameLower(name);
    ToLowerAppend(name, ".so");
    assert ToLower(".so") == ".so";
    var g := name + ".so";
    assert ToLower(g) == g;
    var n := |name|;
    assert g[n] == '.' && g[n + 1] == 's' && g[n + 2] == 'o';
    assert ExtScan(g, n + 3) == ExtScan(g, n + 2) == ExtScan(g, n + 1) == n;
    assert TrimExt(g) == name;
    assert StripExts(g) == StripExts(name);
  }

  /** `KERNEL32.DLL` is the library `kernel32`. */
  lemma BaseNameKernel32()
    ensures BaseName("KERNEL32.DLL") == "kernel32"
  {
    var f := ToLower("KERNEL32.DLL");
    assert f == "kernel32.dll";
    assert ExtScan(f, 12) == ExtScan(f, 11) == ExtScan(f, 10) == ExtScan(f, 9) == 8;
    var g := TrimExt(f);
    assert g == "kernel32";
    assert ExtScan(g, 8) == ExtScan(g, 7) == ExtScan(g, 6) == ExtScan(g, 5) == ExtScan(g, 4);
    assert ExtScan(g, 4) == ExtScan(g, 3) == ExtScan(g, 2) == ExtScan(g, 1) == ExtScan(g, 0) == 8;
    assert TrimExt(g) == g;
  }

  /** `libc.so.6` is the library `libc`. */
  lemma BaseNameLibc()
    ensures BaseName("libc.so.6") == "libc"
  {
    var f := ToLower("libc.so.6");
    assert f == "libc.so.6";
    assert ExtScan(f, 9) == ExtScan(f, 8) == 7;
    var g := TrimExt(f);
    assert g == "libc.so";
    assert ExtScan(g, 7) == ExtScan(g, 6) == ExtScan(g, 5) == 4;
    var h := TrimExt(g);
    assert h == "libc";
    assert ExtScan(h, 4) == ExtScan(h, 3) == ExtScan(h, 2) == ExtScan(h, 1) == ExtScan(h, 0) == 4;
    assert TrimExt(h) == h;
  }

  // ---------------------------------------------------------------------
  // Libraries of the PE import directory and of static libraries

  /** The ELF name of one IAT entry: its name, or `<lib>_ordinal_<n>`. */
  function FuncName(lib: string, e: IATEntry): string
  {
    match e
    case Named(name) => name
    case Ordinal(n) => lib + "_ordinal_" + FormatDecimal(n)
  }

  /** The library of one PE import. */
  function ImportLibrary(imp: Import): Library
  {
    var base := BaseName(imp.dllName);
    Library(base, base + ".so",
      seq(|imp.iats|, j requires 0 <= j < |imp.iats| => FuncName(base, imp.iats[j])))
  }

  /** parseImports: one library per import, in import order, named by
      libName, with the `.so` file name and one function per IAT entry in
      IAT order. */
  function ParseImports(file: PEFile): (libs: seq<Library>)
    ensures |libs| == |file.imps|
    ensures forall i :: 0 <= i < |libs| ==>
      var imp := file.imps[i];
      libs[i].name == BaseName(imp.dllName)
      && libs[i].filename == libs[i].name + ".so"
      && |libs[i].funcs| == |imp.iats|
      && forall j :: 0 <= j < |imp.iats| ==> libs[i].funcs[j] == FuncName(libs[i].name, imp.iats[j])
  {
    seq(|file.imps|, i requires 0 <= i < |file.imps| => ImportLibrary(file.imps[i]))
  }

  /** The library that replaces a statically linked one: named by libName
      of its file name, which it keeps, with its functions' names in order. */
  function StaticLibrary(sl: StaticLib): (lib: Library)
    ensures lib.filename == sl.filename && |lib.funcs| == |sl.funcs|
    ensures forall j :: 0 <= j < |sl.funcs| ==> lib.funcs[j] == sl.funcs[j].name
  {
    Library(BaseName(sl.filename), sl.filename,
      seq(|sl.funcs|, j requires 0 <= j < |sl.funcs| => sl.funcs[j].name))
  }

  /** The library list of `relink`: the PE's libraries, then one per
      statically linked library. */
  function Libraries(file: PEFile, staticLibs: seq<StaticLib>): (libs: seq<Library>)
    ensures |libs| == |file.imps| + |staticLibs|
    ensures libs[..|file.imps|] == ParseImports(file)
    ensures forall i :: 0 <= i < |staticLibs| ==> libs[|file.imps| + i] == StaticLibrary(staticLibs[i])
  {
    ParseImports(file) + seq(|staticLibs|, i requires 0 <= i < |staticLibs| => StaticLibrary(staticLibs[i]))
  }

  predicate NamedByFilename(lib: Library)
  {
    BaseName(lib.filename) == lib.name && BaseName(lib.name) == lib.name
  }

  lemma ImportLibraryNamed(imp: Import)
    ensures NamedByFilename(ImportLibrary(imp))
  {
    BaseNameIdempotent(imp.dllName);
    BaseNameOfSoname(BaseName(imp.dllName));
  }

  lemma StaticLibraryNamed(sl: StaticLib)
    ensures NamedByFilename(StaticLibrary(sl))
  {
    BaseNameIdempotent(sl.filename);
  }

  /** Every library of `relink` is named by libName of its file name, and
      that name is already normal. */
  lemma LibrariesNamedByFilename(file: PEFile, staticLibs: seq<StaticLib>)
    ensures forall lib :: lib in Libraries(file, staticLibs) ==> NamedByFilename(lib)
  {
    var pe := seq(|file.imps|, i requires 0 <= i < |file.imps| => ImportLibrary(file.imps[i]));
    var st := seq(|staticLibs|, i requires 0 <= i < |staticLibs| => StaticLibrary(staticLibs[i]));
    assert Libraries(file, staticLibs) == pe + st;
    forall i | 0 <= i < |pe| ensures NamedByFilename(pe[i]) {
      ImportLibraryNamed(file.imps[i]);
    }
    forall i | 0 <= i < |st| ensures NamedByFilename(st[i]) {
      StaticLibraryNamed(staticLibs[i]);
    }
  }
}
