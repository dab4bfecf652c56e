/** Stand-ins for the parts of Go's standard library that the relinker's
    translation layer calls: `strings` (ToLower, Split, Join, TrimSpace,
    Repeat), `strconv.ParseUint` in base 16, `encoding/hex` and the `%X`,
    `%02X` and `%d` verbs of `fmt`. Strings are sequences of runes. */
module Text {

  type byte = x: int | 0 <= x < 0x100
  type u32 = x: int | 0 <= x < 0x1_0000_0000
  type u64 = x: int | 0 <= x < 0x1_0000_0000_0000_0000

  const U64_MODULUS: int := 0x1_0000_0000_0000_0000

  datatype Option<+T> = None | Some(value: T)

  datatype Result<+T, +E> = Ok(value: T) | Err(error: E)

  // ---------------------------------------------------------------------
  // Case mapping (ASCII letters only)

  function LowerChar(c: char): char
  {
    if 'A' <= c <= 'Z' then (c as int + 32) as char else c
  }

  /** strings.ToLower, restricted to ASCII letters. */
  function ToLower(s: string): (r: string)
    ensures |r| == |s|
    ensures forall i :: 0 <= i < |s| ==> r[i] == LowerChar(s[i])
  {
    seq(|s|, i requires 0 <= i < |s| => LowerChar(s[i]))
  }

  lemma ToLowerIdempotent(s: string)
    ensures ToLower(ToLower(s)) == ToLower(s)
  {
  }

  lemma ToLowerAppend(s: string, t: string)
    ensures ToLower(s + t) == ToLower(s) + ToLower(t)
  {
    assert forall i :: 0 <= i < |s + t| ==>
      ToLower(s + t)[i] == (ToLower(s) + ToLower(t))[i];
  }

  // ---------------------------------------------------------------------
  // Splitting and joining on a one-character separator

  /** Index of the first occurrence of `c` in `s`. */
  function IndexOf(s: string, c: char): (k: nat)
    requires c in s
    ensures k < |s| && s[k] == c && c !in s[..k]
  {
    if s[0] == c then 0 else 1 + IndexOf(s[1..], c)
  }

  /** strings.Join: the parts separated by `sep`; no parts give "". */
  function Join(parts: seq<string>, sep: char): (r: string)
  {
    if |parts| == 0 then ""
    else if |parts| == 1 then parts[0]
    else parts[0] + [sep] + Join(parts[1..], sep)
  }

  /** strings.Split with a one-character separator: the maximal runs of
      `s` between occurrences of `sep`; always at least one part, so ""
      splits into [""]. */
  function Split(s: string, sep: char): (parts: seq<string>)
    ensures |parts| >= 1
    ensures forall i :: 0 <= i < |parts| ==> sep !in parts[i]
    ensures Join(parts, sep) == s
    decreases |s|
  {
    if sep !in s then [s]
    else
      var k := IndexOf(s, sep);
      var rest := Split(s[k + 1..], sep);
      assert s == s[..k] + [sep] + s[k + 1..];
      [s[..k]] + rest
  }

  lemma {:induction false} IndexOfAfter(a: string, c: char, b: string)
    requires c !in a
    ensures IndexOf(a + [c] + b, c) == |a|
  {
    if a != [] {
      IndexOfAfter(a[1..], c, b);
      assert (a + [c] + b)[1..] == a[1..] + [c] + b;
    }
  }

  /** Split undoes Join when no part contains the separator. */
  lemma {:induction false} SplitJoin(parts: seq<string>, sep: char)
    requires |parts| >= 1
    requires forall i :: 0 <= i < |parts| ==> sep !in parts[i]
    ensures Split(Join(parts, sep), sep) == parts
  {
    if |parts| > 1 {
      var s := Join(parts, sep);
      SplitJoin(parts[1..], sep);
      assert s == parts[0] + [sep] + Join(parts[1..], sep);
      assert s[|parts[0]|] == sep;
      IndexOfAfter(parts[0], sep, Join(parts[1..], sep));
      assert s[..|parts[0]|] == parts[0];
      assert s[|parts[0]| + 1..] == Join(parts[1..], sep);
    }
  }

  // ---------------------------------------------------------------------
  // White space

  /** unicode.IsSpace. */
  predicate IsSpace(c: char)
  {
    c == ' ' || c == '\t' || c == '\n' || c == '\r' || c == '\U{000B}' || c == '\U{000C}'
    || c == '\U{0085}' || c == '\U{00A0}' || c == '\U{1680}'
    || ('\U{2000}' <= c <= '\U{200A}') || c == '\U{2028}' || c == '\U{2029}'
    || c == '\U{202F}' || c == '\U{205F}' || c == '\U{3000}'
  }

  function TrimLeft(s: string): (r: string)
    ensures |r| <= |s| && r == s[|s| - |r|..]
    ensures forall k :: 0 <= k < |s| - |r| ==> IsSpace(s[k])
    ensures r == [] || !IsSpace(r[0])
    ensures s == [] || !IsSpace(s[0]) ==> r == s
  {
    if s != [] && IsSpace(s[0]) then TrimLeft(s[1..]) else s
  }

  function TrimRight(s: string): (r: string)
    ensures |r| <= |s| && r == s[..|r|]
    ensures forall k :: |r| <= k < |s| ==> IsSpace(s[k])
    ensures r == [] || !IsSpace(r[|r| - 1])
    ensures s == [] || !IsSpace(s[|s| - 1]) ==> r == s
  {
    if s != [] && IsSpace(s[|s| - 1]) then TrimRight(s[..|s| - 1]) else s
  }

  /** strings.TrimSpace: drops leading and trailing white space. The result
      is the slice `s[i..j]` of the input that is left once the white space
      before `i` and from `j` on is dropped; it neither starts nor ends with
      white space, so no more could be dropped. */
  function TrimSpace(s: string): (r: string)
    ensures exists i, j ::
              && 0 <= i <= j <= |s| && r == s[i..j]
              && (forall k :: 0 <= k < i ==> IsSpace(s[k]))
              && (forall k :: j <= k < |s| ==> IsSpace(s[k]))
    ensures r == [] || (!IsSpace(r[0]) && !IsSpace(r[|r| - 1]))
    ensures (forall i :: 0 <= i < |s| ==> !IsSpace(s[i])) ==> r == s
  {
    var left := TrimLeft(s);
    var r := TrimRight(left);
    var i := |s| - |left|;
    assert r == s[i..i + |r|];
    assert forall k :: i + |r| <= k < |s| ==> IsSpace(s[k]) by {
      forall k | i + |r| <= k < |s| ensures IsSpace(s[k]) {
        assert s[k] == left[k - i];
      }
    }
    r
  }

  /** strings.Repeat for a non-negative count. */
  function Repeat(c: char, n: nat): (r: string)
    ensures |r| == n && forall i :: 0 <= i < n ==> r[i] == c
  {
    seq(n, _ => c)
  }

  // ---------------------------------------------------------------------
  // Hexadecimal digits and numbers

  predicate IsHexDigit(c: char)
  {
    '0' <= c <= '9' || 'a' <= c <= 'f' || 'A' <= c <= 'F'
  }

  predicate AllHex(s: string)
  {
    forall i :: 0 <= i < |s| ==> IsHexDigit(s[i])
  }

  function DigitValue(c: char): (d: nat)
    requires IsHexDigit(c)
    ensures d < 16
  {
    if '0' <= c <= '9' then c as int - '0' as int
    else if 'a' <= c <= 'f' then c as int - 'a' as int + 10
    else c as int - 'A' as int + 10
  }

  /** The value of a run of hex digits, most significant first. */
  function HexValue(s: string): nat
    requires AllHex(s)
  {
    if s == [] then 0 else HexValue(s[..|s| - 1]) * 16 + DigitValue(s[|s| - 1])
  }

  /** Upper-case digit of a value below 16. */
  function HexDigit(d: nat): (c: char)
    requires d < 16
    ensures IsHexDigit(c) && DigitValue(c) == d && !('a' <= c <= 'f')
  {
    if d < 10 then ('0' as int + d) as char else ('A' as int + d - 10) as char
  }

  /** fmt's `%X` of an unsigned integer: upper-case hex, no leading zeros. */
  function FormatHex(x: nat): (r: string)
    ensures |r| >= 1 && AllHex(r)
    ensures x == 0 ==> r == "0"
    ensures x > 0 ==> r[0] != '0'
    ensures forall i :: 0 <= i < |r| ==> !('a' <= r[i] <= 'f')
    decreases x
  {
    if x < 16 then [HexDigit(x)] else FormatHex(x / 16) + [HexDigit(x % 16)]
  }

  lemma {:induction false} HexValueOfFormatHex(x: nat)
    ensures HexValue(FormatHex(x)) == x
    decreases x
  {
    if x >= 16 {
      HexValueOfFormatHex(x / 16);
      var s := FormatHex(x);
      assert s[..|s| - 1] == FormatHex(x / 16);
    }
  }

  /** Lower-casing hex digits keeps them hex digits of the same value. */
  lemma {:induction false} HexValueToLower(s: string)
    requires AllHex(s)
    ensures AllHex(ToLower(s)) && HexValue(ToLower(s)) == HexValue(s)
  {
    if s != [] {
      HexValueToLower(s[..|s| - 1]);
      assert ToLower(s)[..|s| - 1] == ToLower(s[..|s| - 1]);
    }
  }

  /** `%02X` of a byte. */
  function Hex2(b: byte): (r: string)
    ensures |r| == 2 && AllHex(r) && DigitValue(r[0]) * 16 + DigitValue(r[1]) == b
  {
    [HexDigit(b / 16), HexDigit(b % 16)]
  }

  /** `%X` of a byte slice: two upper-case digits per byte. */
  function EncodeHex(bs: seq<byte>): (r: string)
    ensures |r| == 2 * |bs| && AllHex(r)
  {
    if bs == [] then "" else Hex2(bs[0]) + EncodeHex(bs[1..])
  }

  predicate AllDecimal(s: string)
  {
    forall i :: 0 <= i < |s| ==> '0' <= s[i] <= '9'
  }

  /** The value of a run of decimal digits, most significant first. */
  function DecimalValue(s: string): nat
    requires AllDecimal(s)
  {
    if s == [] then 0 else DecimalValue(s[..|s| - 1]) * 10 + (s[|s| - 1] as int - '0' as int)
  }

  /** `%d` of a natural number: decimal digits, no leading zero. */
  function FormatDecimal(n: nat): (r: string)
    ensures |r| >= 1 && AllDecimal(r)
    ensures n == 0 ==> r == "0"
    ensures n > 0 ==> r[0] != '0'
    decreases n
  {
    var d := [('0' as int + n % 10) as char];
    if n < 10 then d else FormatDecimal(n / 10) + d
  }

  /** The printed digits denote the number printed. */
  lemma {:induction false} DecimalValueOfFormatDecimal(n: nat)
    ensures DecimalValue(FormatDecimal(n)) == n
    decreases n
  {
    if n >= 10 {
      DecimalValueOfFormatDecimal(n / 10);
      var s := FormatDecimal(n);
      assert s[..|s| - 1] == FormatDecimal(n / 10);
    }
  }

  // ---------------------------------------------------------------------
  // strconv.ParseUint(s, 16, 64)

  datatype NumError = ErrSyntax | ErrRange

  /** Go's cutoff: the smallest value whose product with 16 overflows. */
  const CUTOFF: int := U64_MODULUS / 16

  /** strconv.ParseUint(s, 16, 64): an empty string is a syntax error. */
  function ParseUintHex(s: string): Result<u64, NumError>
  {
    if s == [] then Err(ErrSyntax) else ParseUintFrom(s, 0, 0)
  }

  /** The digit loop of ParseUint from offset `i` with accumulator `n`:
      a non-digit is a syntax error; an accumulator at or above the cutoff,
      or an addition that wraps, is a range error. */
  function ParseUintFrom(s: string, i: nat, n: u64): Result<u64, NumError>
    requires i <= |s|
    decreases |s| - i
  {
    if i == |s| then Ok(n)
    else if !IsHexDigit(s[i]) then Err(ErrSyntax)
    else if n >= CUTOFF then Err(ErrRange)
    else
      var m := (n * 16) % U64_MODULUS;
      var n1 := (m + DigitValue(s[i])) % U64_MODULUS;
      if n1 < m then Err(ErrRange) else ParseUintFrom(s, i + 1, n1)
  }

  /** A longer run of hex digits is worth at least as much as its prefix. */
  lemma {:induction false} HexValuePrefix(s: string, j: nat)
    requires AllHex(s) && j <= |s|
    ensures HexValue(s[..j]) <= HexValue(s)
    decreases |s| - j
  {
    if j < |s| {
      HexValuePrefix(s, j + 1);
      var t := s[..j + 1];
      assert AllHex(t);
      assert t[..|t| - 1] == s[..j];
      assert HexValue(t) == HexValue(s[..j]) * 16 + DigitValue(s[j]);
    } else {
      assert s[..j] == s;
    }
  }

  /** One digit step of the loop neither overflows nor wraps below the cutoff. */
  lemma StepBelowCutoff(n: nat, d: nat)
    requires n < CUTOFF && d < 16
    ensures (n * 16) % U64_MODULUS == n * 16
    ensures (n * 16 + d) % U64_MODULUS == n * 16 + d
  {
  }

  lemma {:induction false} ParseUintFromCorrect(s: string, i: nat, n: u64)
    requires i <= |s| && AllHex(s[..i]) && n == HexValue(s[..i])
    ensures ParseUintFrom(s, i, n).Ok? <==> AllHex(s) && HexValue(s) < U64_MODULUS
    ensures ParseUintFrom(s, i, n).Ok? ==> ParseUintFrom(s, i, n).value == HexValue(s)
    decreases |s| - i
  {
    if i == |s| {
      assert s[..i] == s;
    } else if !IsHexDigit(s[i]) {
      assert !AllHex(s);
    } else {
      var t := s[..i + 1];
      var d := DigitValue(s[i]);
      assert t[..i] == s[..i];
      assert AllHex(t);
      assert HexValue(t) == n * 16 + d;
      if n >= CUTOFF {
        if AllHex(s) {
          HexValuePrefix(s, i + 1);
        }
      } else {
        StepBelowCutoff(n, d);
        ParseUintFromCorrect(s, i + 1, n * 16 + d);
      }
    }
  }

  /** ParseUint in base 16 succeeds exactly on non-empty runs of hex digits
      whose value fits in 64 bits, and then returns that value. */
  lemma ParseUintHexCorrect(s: string)
    ensures ParseUintHex(s).Ok? <==> s != [] && AllHex(s) && HexValue(s) < U64_MODULUS
    ensures ParseUintHex(s).Ok? ==> ParseUintHex(s).value == HexValue(s)
  {
    if s != [] {
      assert s[..0] == [];
      ParseUintFromCorrect(s, 0, 0);
    }
  }

  // ---------------------------------------------------------------------
  // hex.DecodeString

  /** Byte k of `bs` is the value of the digit pair at 2k and 2k + 1 of `s`. */
  predicate PairsDecode(s: string, bs: seq<byte>)
    requires AllHex(s) && |s| == 2 * |bs|
  {
    forall k :: 0 <= k < |bs| ==> bs[k] == DigitValue(s[2 * k]) * 16 + DigitValue(s[2 * k + 1])
  }

  lemma PairsDecodeCons(s: string, rest: seq<byte>)
    requires |s| >= 2 && AllHex(s) && |s| == 2 * |rest| + 2
    requires PairsDecode(s[2..], rest)
    ensures PairsDecode(s, [DigitValue(s[0]) * 16 + DigitValue(s[1])] + rest)
  {
    var bs := [DigitValue(s[0]) * 16 + DigitValue(s[1])] + rest;
    forall k | 1 <= k < |bs|
      ensures bs[k] == DigitValue(s[2 * k]) * 16 + DigitValue(s[2 * k + 1])
    {
      assert bs[k] == rest[k - 1];
      assert s[2 * k] == s[2..][2 * (k - 1)] && s[2 * k + 1] == s[2..][2 * (k - 1) + 1];
    }
  }

  /** hex.DecodeString: pairs of hex digits (either case) to bytes; an odd
      length or a non-hex character is an error. */
  function DecodeHex(s: string): (r: Option<seq<byte>>)
    ensures r.Some? <==> |s| % 2 == 0 && AllHex(s)
    ensures r.Some? ==> |r.value| * 2 == |s|
  {
    if |s| == 0 then Some([])
    else if |s| == 1 then None
    else if !IsHexDigit(s[0]) || !IsHexDigit(s[1]) then None
    else match DecodeHex(s[2..])
      case None =>
        assert !AllHex(s[2..]) || |s[2..]| % 2 != 0;
        None
      case Some(rest) =>
        Some([DigitValue(s[0]) * 16 + DigitValue(s[1])] + rest)
  }

  /** The bytes hex.DecodeString gives: byte k is the value of the digit
      pair at 2k and 2k + 1, in either case. */
  lemma {:induction false} DecodeHexValues(s: string)
    requires DecodeHex(s).Some?
    ensures AllHex(s) && |s| == 2 * |DecodeHex(s).value| && PairsDecode(s, DecodeHex(s).value)
  {
    if |s| >= 2 {
      DecodeHexValues(s[2..]);
      PairsDecodeCons(s, DecodeHex(s[2..]).value);
    }
  }

  lemma {:induction false} DecodeEncodeHex(bs: seq<byte>)
    ensures DecodeHex(EncodeHex(bs)) == Some(bs)
  {
    if bs != [] {
      DecodeEncodeHex(bs[1..]);
      var h := Hex2(bs[0]);
      var e := EncodeHex(bs);
      assert e == h + EncodeHex(bs[1..]);
      assert e[0] == h[0] && e[1] == h[1];
      assert e[2..] == EncodeHex(bs[1..]);
      assert [bs[0]] + bs[1..] == bs;
    }
  }
}
