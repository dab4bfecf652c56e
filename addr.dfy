/** Address syntax of the relinker: `0x…` addresses, half-open address
    ranges and their comma-separated lists, and `addr:hexbytes` binary
    replacements, each with its parser (`Set`) and printer (`String`).

    A Go `Set` method overwrites (parts of) its receiver and reports an
    error; it is modelled as a function from the old receiver and the input
    to the receiver it leaves behind and the error, so that a receiver that
    was partly overwritten before an error is visible. */
module Addr {
  import opened Text

  /** A 64-bit virtual address. */
  type Address = u64

  datatype Error =
    | MissingPrefix(input: string)
    | BadNumber(digits: string, cause: NumError)
    | RangeParts(count: nat)
    | ReplacementParts(count: nat)
    | BadHexBytes(input: string)

  /** What a `Set` call leaves in its receiver, and the error it returns. */
  datatype Updated<T> = Updated(recv: T, err: Option<Error>)

  /** What a list `Set` call leaves in its receiver, and the error it returns. */
  datatype Appended<T> = Appended(items: seq<T>, err: Option<Error>)

  // ---------------------------------------------------------------------
  // Addresses

  predicate HasHexPrefix(t: string)
  {
    |t| >= 2 && t[..2] == "0x"
  }

  /** parseHex: lower-case the input, demand the `0x` prefix, and parse the
      rest with strconv.ParseUint in base 16 and 64 bits. */
  function ParseHex(s: string): Result<u64, Error>
  {
    var t := ToLower(s);
    if !HasHexPrefix(t) then Err(MissingPrefix(t))
    else match ParseUintHex(t[2..])
      case Ok(x) => Ok(x)
      case Err(e) => Err(BadNumber(t[2..], e))
  }

  /** parseHex succeeds exactly when the lower-cased input is `0x` followed
      by a non-empty run of hex digits whose value is below 2^64. */
  lemma ParseHexCorrect(s: string)
    ensures var t := ToLower(s);
      ParseHex(s).Ok? <==>
        HasHexPrefix(t) && |t| > 2 && AllHex(t[2..]) && HexValue(t[2..]) < U64_MODULUS
    ensures var t := ToLower(s);
      ParseHex(s).Ok? ==> ParseHex(s).value == HexValue(t[2..])
  {
    var t := ToLower(s);
    if HasHexPrefix(t) {
      ParseUintHexCorrect(t[2..]);
    }
  }

  /** Address.String: `0x` and upper-case hex digits without leading zeros. */
  function AddressString(a: Address): (r: string)
    ensures |r| >= 3 && r[..2] == "0x"
    ensures r[2] != '0' || |r| == 3
    ensures forall i :: 2 <= i < |r| ==> IsHexDigit(r[i]) && !('a' <= r[i] <= 'f')
  {
    "0x" + FormatHex(a)
  }

  /** Every character of a printed address is `x` or a hex digit. */
  predicate AddressChar(c: char)
  {
    c == 'x' || IsHexDigit(c)
  }

  lemma AddressStringChars(a: Address)
    ensures forall i :: 0 <= i < |AddressString(a)| ==> AddressChar(AddressString(a)[i])
  {
    var r := AddressString(a);
    forall i | 0 <= i < |r| ensures AddressChar(r[i]) {
      if i < 2 {
        assert r[i] == "0x"[i];
      }
    }
  }

  /** Parsing a printed address gives the address back. */
  lemma ParseHexOfString(a: Address)
    ensures ParseHex(AddressString(a)) == Ok(a)
  {
    var f := FormatHex(a);
    ToLowerAppend("0x", f);
    var t := ToLower(AddressString(a));
    assert ToLower("0x") == "0x";
    assert t[2..] == ToLower(f);
    HexValueToLower(f);
    HexValueOfFormatHex(a);
    ParseUintHexCorrect(t[2..]);
  }

  /** Address.Set: the parsed address on success; otherwise the receiver
      is left as it was. */
  function AddressSet(a: Address, s: string): (u: Updated<Address>)
    ensures u.err.None? <==> ParseHex(s).Ok?
    ensures u.recv == if ParseHex(s).Ok? then ParseHex(s).value else a
  {
    match ParseHex(s)
    case Ok(x) => Updated(x, None)
    case Err(e) => Updated(a, Some(e))
  }

  lemma AddressSetString(a: Address, b: Address)
    ensures AddressSet(a, AddressString(b)) == Updated(b, None)
  {
    ParseHexOfString(b);
  }

  // ---------------------------------------------------------------------
  // Address ranges

  /** The half-open address range [start, end). */
  datatype AddrRange = AddrRange(start: Address, end: Address)
  {
    predicate Contains(x: Address)
    {
      start <= x && x < end
    }
  }

  const ZeroRange: AddrRange := AddrRange(0, 0)

  /** A range holds exactly the addresses from its start up to, and not
      including, its end. The end of a range is never in it, and a range
      whose start is not
      below its end contains nothing. */
  lemma RangeBounds(r: AddrRange, x: Address)
    ensures r.Contains(x) <==> r.start <= x < r.end
    ensures !r.Contains(r.end)
    ensures r.start >= r.end ==> !r.Contains(x)
  {
  }

  /** AddrRanges.Contains: a search for a member range containing `x`. */
  function AddrRangesContains(rs: seq<AddrRange>, x: Address): (b: bool)
    ensures b <==> exists i :: 0 <= i < |rs| && rs[i].Contains(x)
  {
    if rs == [] then false
    else if rs[0].Contains(x) then true
    else
      var b := AddrRangesContains(rs[1..], x);
      assert forall i :: 1 <= i < |rs| ==> rs[i] == rs[1..][i - 1];
      b
  }

  /** AddrRange.String: `start-end`. */
  function RangeString(r: AddrRange): string
  {
    AddressString(r.start) + "-" + AddressString(r.end)
  }

  /** AddrRange.Set: exactly two dash-separated addresses. The start is
      overwritten before the end is parsed, so a bad end leaves the new
      start in the receiver; the order of start and end is not checked. */
  function RangeSet(a: AddrRange, s: string): Updated<AddrRange>
  {
    var parts := Split(s, '-');
    if |parts| != 2 then Updated(a, Some(RangeParts(|parts|)))
    else
      var st := AddressSet(a.start, parts[0]);
      if st.err.Some? then Updated(a, st.err)
      else
        var en := AddressSet(a.end, parts[1]);
        Updated(AddrRange(st.recv, en.recv), en.err)
  }

  /** The outcomes of AddrRange.Set: success exactly when there are two
      parts that both parse; a bad start leaves the receiver unchanged;
      a bad end leaves the new start beside the old end. */
  lemma RangeSetOutcome(a: AddrRange, s: string)
    ensures var parts := Split(s, '-');
      RangeSet(a, s).err.None? <==>
        |parts| == 2 && ParseHex(parts[0]).Ok? && ParseHex(parts[1]).Ok?
    ensures var parts := Split(s, '-');
      RangeSet(a, s).err.None? ==>
        RangeSet(a, s).recv == AddrRange(ParseHex(parts[0]).value, ParseHex(parts[1]).value)
    ensures var parts := Split(s, '-');
      |parts| != 2 || ParseHex(parts[0]).Err? ==> RangeSet(a, s).recv == a
    ensures var parts := Split(s, '-');
      |parts| == 2 && ParseHex(parts[0]).Ok? && ParseHex(parts[1]).Err? ==>
        RangeSet(a, s).recv == AddrRange(ParseHex(parts[0]).value, a.end)
  {
  }

  /** Setting a range from its printed form gives the range back, whatever
      the receiver held before. */
  lemma RangeSetString(a: AddrRange, r: AddrRange)
    ensures RangeSet(a, RangeString(r)) == Updated(r, None)
  {
    var x, y := AddressString(r.start), AddressString(r.end);
    AddressStringChars(r.start);
    AddressStringChars(r.end);
    assert Join([x, y], '-') == RangeString(r);
    SplitJoin([x, y], '-');
    AddressSetString(a.start, r.start);
    AddressSetString(a.end, r.end);
  }

  // ---------------------------------------------------------------------
  // Binary replacements

  /** A binary replacement: new content at an address. */
  datatype Replacement = Replacement(addr: Address, buf: seq<byte>)

  const ZeroReplacement: Replacement := Replacement(0, [])

  /** Replacement.String: `%s:%X` of the address and the bytes. */
  function ReplacementString(r: Replacement): string
  {
    AddressString(r.addr) + ":" + EncodeHex(r.buf)
  }

  /** Replacement.Set: exactly two colon-separated parts, an address and
      hex bytes of even length. The address is overwritten before the bytes
      are decoded, so bad bytes leave the new address in the receiver. */
  function ReplacementSet(r: Replacement, s: string): Updated<Replacement>
  {
    var parts := Split(s, ':');
    if |parts| != 2 then Updated(r, Some(ReplacementParts(|parts|)))
    else
      var a := AddressSet(r.addr, parts[0]);
      if a.err.Some? then Updated(r, a.err)
      else match DecodeHex(parts[1])
        case None => Updated(Replacement(a.recv, r.buf), Some(BadHexBytes(parts[1])))
        case Some(buf) => Updated(Replacement(a.recv, buf), None)
  }

  /** The outcomes of Replacement.Set: success exactly when there are two
      parts, an address and hex bytes of even length, and then the address
      and the decoded bytes are stored; too few or too many parts, or a bad
      address, leave the receiver unchanged; bad bytes leave the new
      address beside the old bytes. */
  lemma ReplacementSetOutcome(r: Replacement, s: string)
    ensures var parts := Split(s, ':');
      ReplacementSet(r, s).err.None? <==>
        |parts| == 2 && ParseHex(parts[0]).Ok? && |parts[1]| % 2 == 0 && AllHex(parts[1])
    ensures var parts := Split(s, ':');
      ReplacementSet(r, s).err.None? ==>
        var buf := ReplacementSet(r, s).recv.buf;
        ReplacementSet(r, s).recv.addr == ParseHex(parts[0]).value
        && |buf| * 2 == |parts[1]| && PairsDecode(parts[1], buf)
    ensures var parts := Split(s, ':');
      |parts| != 2 || ParseHex(parts[0]).Err? ==> ReplacementSet(r, s).recv == r
    ensures var parts := Split(s, ':');
      |parts| == 2 && ParseHex(parts[0]).Ok? && !(|parts[1]| % 2 == 0 && AllHex(parts[1])) ==>
        ReplacementSet(r, s).recv == Replacement(ParseHex(parts[0]).value, r.buf)
  {
    var parts := Split(s, ':');
    if |parts| == 2 && DecodeHex(parts[1]).Some? {
      DecodeHexValues(parts[1]);
    }
  }

  /** Setting a replacement from its printed form gives it back. */
  lemma ReplacementSetString(q: Replacement, r: Replacement)
    ensures ReplacementSet(q, ReplacementString(r)) == Updated(r, None)
  {
    var x, y := AddressString(r.addr), EncodeHex(r.buf);
    AddressStringChars(r.addr);
    assert forall i :: 0 <= i < |y| ==> IsHexDigit(y[i]);
    assert Join([x, y], ':') == ReplacementString(r);
    SplitJoin([x, y], ':');
    var parts := Split(ReplacementString(r), ':');
    assert parts == [x, y];
    AddressSetString(q.addr, r.addr);
    assert AddressSet(q.addr, parts[0]) == Updated(r.addr, None);
    DecodeEncodeHex(r.buf);
    assert DecodeHex(parts[1]) == Some(r.buf);
    ReplacementSetParsed(q, ReplacementString(r));
  }

  /** When both parts parse, Replacement.Set stores both. */
  lemma ReplacementSetParsed(q: Replacement, s: string)
    requires |Split(s, ':')| == 2
    requires AddressSet(q.addr, Split(s, ':')[0]).err.None? && DecodeHex(Split(s, ':')[1]).Some?
    ensures ReplacementSet(q, s)
      == Updated(Replacement(AddressSet(q.addr, Split(s, ':')[0]).recv, DecodeHex(Split(s, ':')[1]).value), None)
  {
  }

  // ---------------------------------------------------------------------
  // Lists: AddrRanges and Replacements

  /** What the list `Set` loops append: one item per part, in order, each
      parsed into a fresh zero receiver; the first failing part stops the
      loop with the items of the earlier parts already appended. */
  function AppendParsed<T>(parts: seq<string>, parse: string -> Updated<T>): (r: Appended<T>)
    ensures |r.items| <= |parts|
    ensures r.err.None? <==> |r.items| == |parts|
    ensures forall k :: 0 <= k < |r.items| ==> parse(parts[k]) == Updated(r.items[k], None)
    ensures r.err.Some? ==> parse(parts[|r.items|]).err == r.err
  {
    if parts == [] then Appended([], None)
    else
      var pre := AppendParsed(parts[..|parts| - 1], parse);
      if pre.err.Some? then pre
      else
        var u := parse(parts[|parts| - 1]);
        if u.err.Some? then Appended(pre.items, u.err)
        else Appended(pre.items + [u.recv], None)
  }

  /** Once a prefix of the parts fails, the longer list fails the same way. */
  lemma {:induction false} AppendParsedStops<T>(parts: seq<string>, i: nat, parse: string -> Updated<T>)
    requires i <= |parts| && AppendParsed(parts[..i], parse).err.Some?
    ensures AppendParsed(parts, parse) == AppendParsed(parts[..i], parse)
    decreases |parts| - i
  {
    if i < |parts| {
      AppendParsedStops(parts, i + 1, parse);
      assert parts[..i + 1][..i] == parts[..i];
    } else {
      assert parts[..i] == parts;
    }
  }

  /** When every part parses to the matching item, all items are appended. */
  lemma {:induction false} AppendParsedAll<T>(parts: seq<string>, items: seq<T>, parse: string -> Updated<T>)
    requires |parts| == |items|
    requires forall k :: 0 <= k < |parts| ==> parse(parts[k]) == Updated(items[k], None)
    ensures AppendParsed(parts, parse) == Appended(items, None)
  {
    if parts != [] {
      var n := |parts| - 1;
      AppendParsedAll(parts[..n], items[..n], parse);
      assert items[..n] + [items[n]] == items;
    }
  }

  /** One part of an AddrRanges list: trimmed, then set into a zero range. */
  function RangePart(part: string): Updated<AddrRange>
  {
    RangeSet(ZeroRange, TrimSpace(part))
  }

  /** One part of a Replacements list. */
  function ReplacementPart(part: string): Updated<Replacement>
  {
    ReplacementSet(ZeroReplacement, TrimSpace(part))
  }

  /** AddrRanges.String: the ranges joined by commas. */
  function RangesString(rs: seq<AddrRange>): string
  {
    Join(seq(|rs|, i requires 0 <= i < |rs| => RangeString(rs[i])), ',')
  }

  /** Replacements.String: the replacements joined by commas. */
  function ReplacementsString(rs: seq<Replacement>): string
  {
    Join(seq(|rs|, i requires 0 <= i < |rs| => ReplacementString(rs[i])), ',')
  }

  /** The loop shared by AddrRanges.Set and Replacements.Set: appends one
      parsed item per comma-separated part to the receiver's list, in order,
      and stops at the first bad part with that part's error. */
  method SetList<T>(items: seq<T>, s: string, parse: string -> Updated<T>) returns (items': seq<T>, err: Option<Error>)
    ensures var spec := AppendParsed(Split(s, ','), parse);
      items' == items + spec.items && err == spec.err
  {
    var parts := Split(s, ',');
    var added: seq<T> := [];
    var i := 0;
    while i < |parts|
      invariant 0 <= i <= |parts|
      invariant AppendParsed(parts[..i], parse) == Appended(added, None)
    {
      var a := parse(parts[i]);
      assert parts[..i + 1][..i] == parts[..i];
      if a.err.Some? {
        AppendParsedStops(parts, i + 1, parse);
        return items + added, a.err;
      }
      added := added + [a.recv];
      i := i + 1;
    }
    assert parts[..i] == parts;
    return items + added, None;
  }

  /** AddrRanges.Set: appends one range per comma-separated part to the
      receiver's list, in order, and stops at the first bad part. */
  method SetRanges(rs: seq<AddrRange>, s: string) returns (rs': seq<AddrRange>, err: Option<Error>)
    ensures var spec := AppendParsed(Split(s, ','), RangePart);
      rs' == rs + spec.items && err == spec.err
  {
    rs', err := SetList(rs, s, RangePart);
  }

  /** Replacements.Set: the same loop over replacement parts. */
  method SetReplacements(rs: seq<Replacement>, s: string) returns (rs': seq<Replacement>, err: Option<Error>)
    ensures var spec := AppendParsed(Split(s, ','), ReplacementPart);
      rs' == rs + spec.items && err == spec.err
  {
    rs', err := SetList(rs, s, ReplacementPart);
  }

  /** The characters of printed addresses, ranges and replacements. */
  predicate PrintedChars(s: string)
  {
    forall i :: 0 <= i < |s| ==> AddressChar(s[i]) || s[i] == '-' || s[i] == ':'
  }

  lemma PrintedConcat(a: string, b: string)
    requires PrintedChars(a) && PrintedChars(b)
    ensures PrintedChars(a + b)
  {
    forall i | 0 <= i < |a + b|
      ensures AddressChar((a + b)[i]) || (a + b)[i] == '-' || (a + b)[i] == ':'
    {
      if i < |a| {
        assert (a + b)[i] == a[i];
      } else {
        assert (a + b)[i] == b[i - |a|];
      }
    }
  }

  /** Printed addresses, ranges and replacements hold no comma and no white
      space. */
  lemma PrintedNoSpace(s: string)
    requires PrintedChars(s)
    ensures TrimSpace(s) == s && ',' !in s
  {
    forall i | 0 <= i < |s| ensures !IsSpace(s[i]) && s[i] != ',' {
      assert AddressChar(s[i]) || s[i] == '-' || s[i] == ':';
    }
  }

  lemma RangePartOfString(r: AddrRange)
    ensures ',' !in RangeString(r) && RangePart(RangeString(r)) == Updated(r, None)
  {
    AddressStringChars(r.start);
    AddressStringChars(r.end);
    PrintedConcat(AddressString(r.start), "-");
    PrintedConcat(AddressString(r.start) + "-", AddressString(r.end));
    PrintedNoSpace(RangeString(r));
    RangeSetString(ZeroRange, r);
  }

  /** Setting a non-empty range list from its printed form appends exactly
      those ranges. */
  lemma SetRangesOfString(rs: seq<AddrRange>)
    requires |rs| >= 1
    ensures AppendParsed(Split(RangesString(rs), ','), RangePart) == Appended(rs, None)
  {
    var strs := seq(|rs|, i requires 0 <= i < |rs| => RangeString(rs[i]));
    forall k | 0 <= k < |strs|
      ensures ',' !in strs[k] && RangePart(strs[k]) == Updated(rs[k], None)
    {
      RangePartOfString(rs[k]);
    }
    SplitJoin(strs, ',');
    AppendParsedAll(strs, rs, RangePart);
  }

  /** An empty list prints as "", and setting from "" fails: the single
      empty part is not a range. */
  lemma SetRangesOfEmpty()
    ensures RangesString([]) == ""
    ensures AppendParsed(Split("", ','), RangePart).err == Some(RangeParts(1))
  {
    assert Split("", ',') == [""];
    assert Split("", '-') == [""];
  }

  lemma ReplacementPartOfString(r: Replacement)
    ensures ',' !in ReplacementString(r) && ReplacementPart(ReplacementString(r)) == Updated(r, None)
  {
    AddressStringChars(r.addr);
    var y := EncodeHex(r.buf);
    assert PrintedChars(y);
    PrintedConcat(AddressString(r.addr), ":");
    PrintedConcat(AddressString(r.addr) + ":", y);
    PrintedNoSpace(ReplacementString(r));
    ReplacementSetString(ZeroReplacement, r);
  }

  /** Setting a non-empty replacement list from its printed form appends
      exactly those replacements. */
  lemma SetReplacementsOfString(rs: seq<Replacement>)
    requires |rs| >= 1
    ensures AppendParsed(Split(ReplacementsString(rs), ','), ReplacementPart) == Appended(rs, None)
  {
    var strs := seq(|rs|, i requires 0 <= i < |rs| => ReplacementString(rs[i]));
    forall k | 0 <= k < |strs|
      ensures ',' !in strs[k] && ReplacementPart(strs[k]) == Updated(rs[k], None)
    {
      ReplacementPartOfString(rs[k]);
    }
    SplitJoin(strs, ',');
    AppendParsedAll(strs, rs, ReplacementPart);
  }
}
