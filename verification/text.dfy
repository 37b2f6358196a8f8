/** String and sequence helpers mirroring the .NET operations the
    application relies on: white-space tests, trimming, ordinal case
    folding, substring search, joining, and Int32 parsing/formatting.
    Strings are sequences of UTF-16 code units; a C# `null` string is
    modelled as the empty string, on which every helper here behaves as
    its .NET counterpart does on `null`. */
module Text {

  import opened Base

  /** `char.IsWhiteSpace`: the Unicode white-space characters. */
  predicate IsWhiteSpace(c: char) {
    || ('\t' <= c <= '\r')
    || c == ' ' || c == '\U{0085}' || c == '\U{00A0}' || c == '\U{1680}'
    || ('\U{2000}' <= c <= '\U{200A}')
    || c == '\U{2028}' || c == '\U{2029}' || c == '\U{202F}' || c == '\U{205F}' || c == '\U{3000}'
  }

  /** `string.IsNullOrWhiteSpace`. */
  predicate IsBlank(s: string) {
    forall i :: 0 <= i < |s| ==> IsWhiteSpace(s[i])
  }

  /** Number of leading characters of `s` satisfying `ws`. */
  function LeadingCount(s: string, ws: char -> bool): (n: nat)
    ensures n <= |s|
    ensures forall i :: 0 <= i < n ==> ws(s[i])
    ensures n < |s| ==> !ws(s[n])
    decreases |s|
  {
    if |s| > 0 && ws(s[0]) then
      var m := LeadingCount(s[1..], ws);
      assert forall i :: 1 <= i < 1 + m ==> s[i] == s[1..][i - 1];
      1 + m
    else 0
  }

  /** Number of trailing characters of `s` satisfying `ws`. */
  function TrailingCount(s: string, ws: char -> bool): (n: nat)
    ensures n <= |s|
    ensures forall i :: |s| - n <= i < |s| ==> ws(s[i])
    ensures n < |s| ==> !ws(s[|s| - n - 1])
    decreases |s|
  {
    if |s| > 0 && ws(s[|s| - 1]) then
      var m := TrailingCount(s[..|s| - 1], ws);
      assert forall i :: |s| - 1 - m <= i < |s| - 1 ==> s[i] == s[..|s| - 1][i];
      1 + m
    else 0
  }

  /** Removes the characters satisfying `ws` from both ends: the result is
      the slice of `s` that starts after its white prefix, every character
      of `s` outside that slice satisfies `ws`, and the result neither
      starts nor ends with such a character. */
  function TrimBy(s: string, ws: char -> bool): (r: string)
    ensures |r| <= |s| - LeadingCount(s, ws)
    ensures r == s[LeadingCount(s, ws)..LeadingCount(s, ws) + |r|]
    ensures forall k :: 0 <= k < LeadingCount(s, ws) ==> ws(s[k])
    ensures forall k :: LeadingCount(s, ws) + |r| <= k < |s| ==> ws(s[k])
    ensures r == [] || (!ws(r[0]) && !ws(r[|r| - 1]))
  {
    var a := LeadingCount(s, ws);
    var b := TrailingCount(s[a..], ws);
    TrimSlice(s, ws, a, b);
    s[a..|s| - b]
  }

  /** The slice between a white prefix and a white suffix of what follows
      it keeps both ends non-white. */
  lemma TrimSlice(s: string, ws: char -> bool, a: nat, b: nat)
    requires a == LeadingCount(s, ws) && b == TrailingCount(s[a..], ws)
    ensures a + b <= |s|
    ensures forall k :: a + (|s| - a - b) <= k < |s| ==> ws(s[k])
    ensures var r := s[a..|s| - b]; r == [] || (!ws(r[0]) && !ws(r[|r| - 1]))
  {
    var t := s[a..];
    assert forall k :: a + |t| - b <= k < |s| ==> s[k] == t[k - a];
    var r := s[a..|s| - b];
    if r != [] {
      assert r[0] == s[a];
      assert r[|r| - 1] == t[|t| - b - 1];
    }
  }

  /** `string.Trim()`. */
  function Trim(s: string): string {
    TrimBy(s, IsWhiteSpace)
  }

  /** A string that neither starts nor ends with a trimmed character is
      its own trim. */
  lemma TrimByNoop(s: string, ws: char -> bool)
    requires s != [] && !ws(s[0]) && !ws(s[|s| - 1])
    ensures TrimBy(s, ws) == s
  {
    assert LeadingCount(s, ws) == 0;
  }

  /** `IsNullOrWhiteSpace(s)` holds exactly when trimming leaves nothing. */
  lemma BlankIffTrimEmpty(s: string)
    ensures IsBlank(s) <==> Trim(s) == []
  {
    var n := LeadingCount(s, IsWhiteSpace);
    if IsBlank(s) {
      assert n == |s|;
    }
  }

  /** Ordinal lower-casing of one character (ASCII letters only). */
  function LowerChar(c: char): (d: char)
  {
    if 'A' <= c <= 'Z' then (c as int + 32) as char else c
  }

  /** `ToLower()`, restricted to ASCII letters. */
  function ToLower(s: string): (r: string)
    ensures |r| == |s|
    ensures forall i :: 0 <= i < |s| ==> r[i] == LowerChar(s[i])
  {
    if s == [] then [] else [LowerChar(s[0])] + ToLower(s[1..])
  }

  /** Lower-casing a second time changes nothing, so a switch over a
      lower-cased name is case-insensitive. */
  lemma ToLowerIdempotent(s: string)
    ensures ToLower(ToLower(s)) == ToLower(s)
  {
  }

  /** A string without ASCII capitals is its own lower-case form. */
  lemma LowerNoUpper(s: string)
    requires forall i :: 0 <= i < |s| ==> !('A' <= s[i] <= 'Z')
    ensures ToLower(s) == s
  {
  }

  /** `needle` occurs in `hay` at offset `i`. */
  predicate OccursAt(hay: string, needle: string, i: int) {
    0 <= i && i + |needle| <= |hay| && hay[i..i + |needle|] == needle
  }

  /** `needle` occurs somewhere in `hay`. */
  predicate Occurs(hay: string, needle: string) {
    exists i | 0 <= i <= |hay| :: OccursAt(hay, needle, i)
  }

  /** Ordinal substring test (`string.Contains`), by scanning. */
  function Contains(hay: string, needle: string): (b: bool)
    ensures b <==> Occurs(hay, needle)
    decreases |hay|
  {
    if |needle| > |hay| then
      assert forall i :: !OccursAt(hay, needle, i);
      false
    else if hay[..|needle|] == needle then
      assert OccursAt(hay, needle, 0);
      true
    else
      var b := Contains(hay[1..], needle);
      assert forall i :: OccursAt(hay[1..], needle, i) <==> OccursAt(hay, needle, i + 1) by {
        forall i ensures OccursAt(hay[1..], needle, i) <==> OccursAt(hay, needle, i + 1) {
          if 0 <= i && i + |needle| <= |hay[1..]| {
            assert hay[1..][i..i + |needle|] == hay[i + 1..i + 1 + |needle|];
          }
        }
      }
      assert b ==> exists i :: OccursAt(hay, needle, i) by {
        if b {
          var i :| OccursAt(hay[1..], needle, i);
          assert OccursAt(hay, needle, i + 1);
        }
      }
      assert (exists i :: OccursAt(hay, needle, i)) ==> b by {
        if exists i :: OccursAt(hay, needle, i) {
          var i :| OccursAt(hay, needle, i);
          assert i != 0;
          assert OccursAt(hay[1..], needle, i - 1);
        }
      }
      b
  }

  /** `hay.Contains(needle, StringComparison.OrdinalIgnoreCase)`. */
  function ContainsIgnoreCase(hay: string, needle: string): (b: bool)
    ensures b <==> Occurs(ToLower(hay), ToLower(needle))
  {
    Contains(ToLower(hay), ToLower(needle))
  }

  /** `string.Join(sep, parts)`. */
  function Join(sep: string, parts: seq<string>): (r: string)
    ensures |parts| == 1 ==> r == parts[0]
  {
    if |parts| == 0 then []
    else if |parts| == 1 then parts[0]
    else parts[0] + sep + Join(sep, parts[1..])
  }

  /** Appending one more part extends the joined string at its end, so the
      parts appear in the joined text in their sequence order. */
  lemma {:induction false} JoinSnoc(sep: string, parts: seq<string>, x: string)
    requires |parts| >= 1
    ensures Join(sep, parts + [x]) == Join(sep, parts) + sep + x
    decreases |parts|
  {
    if |parts| == 1 {
      assert (parts + [x])[1..] == [x];
    } else {
      assert (parts + [x])[1..] == parts[1..] + [x];
      JoinSnoc(sep, parts[1..], x);
    }
  }

  /** When every part is non-empty, the join is empty exactly when there are
      no parts. */
  lemma {:induction false} JoinEmptyIff(sep: string, parts: seq<string>)
    requires forall i :: 0 <= i < |parts| ==> parts[i] != []
    ensures Join(sep, parts) == [] <==> parts == []
  {
    if |parts| >= 2 {
      assert |Join(sep, parts)| >= |parts[0]| > 0;
    }
  }

  // ---------------------------------------------------------------------
  // Int32 parsing and formatting
  // ---------------------------------------------------------------------

  const Int32Min: int := -0x8000_0000
  const Int32Max: int := 0x7FFF_FFFF

  predicate InInt32(n: int) {
    Int32Min <= n <= Int32Max
  }

  /** C# unchecked 32-bit two's-complement reduction. */
  function Wrap32(n: int): (r: int)
    ensures InInt32(r)
    ensures InInt32(n) ==> r == n
    ensures (r - n) % 0x1_0000_0000 == 0
  {
    (n - Int32Min) % 0x1_0000_0000 + Int32Min
  }

  /** Wrapping an intermediate sum does not change the final wrap. */
  lemma Wrap32Add(a: int, b: int)
    ensures Wrap32(Wrap32(a) + b) == Wrap32(a + b)
  {
    var w := Wrap32(a);
    var q := (a - Int32Min) / 0x1_0000_0000;
    assert w == a - q * 0x1_0000_0000;
    assert (w + b - Int32Min) == (a + b - Int32Min) - q * 0x1_0000_0000;
    ModShift(a + b - Int32Min, q);
  }

  lemma ModShift(x: int, q: int)
    ensures (x - q * 0x1_0000_0000) % 0x1_0000_0000 == x % 0x1_0000_0000
  {
  }

  predicate IsDigit(c: char) {
    '0' <= c <= '9'
  }

  predicate AllDigits(s: string) {
    forall i :: 0 <= i < |s| ==> IsDigit(s[i])
  }

  /** The white space `int.TryParse` tolerates around a number
      (`NumberStyles.Integer`): U+0009 to U+000D and the space. */
  predicate IsNumberWhite(c: char) {
    ('\t' <= c <= '\r') || c == ' '
  }

  /** Value of a string of decimal digits, most significant first. */
  function DigitsValue(s: string): nat
    requires AllDigits(s)
  {
    if s == [] then 0 else DigitsValue(s[..|s| - 1]) * 10 + (s[|s| - 1] as int - '0' as int)
  }

  function DigitChar(d: nat): (c: char)
    requires d < 10
    ensures IsDigit(c) && c as int - '0' as int == d
  {
    ('0' as int + d) as char
  }

  /** Decimal representation of a natural number, without leading zeros. */
  function FormatNat(n: nat): (s: string)
    ensures s != [] && AllDigits(s)
    ensures DigitsValue(s) == n
    ensures n > 0 ==> s[0] != '0'
  {
    if n < 10 then [DigitChar(n)]
    else
      var s := FormatNat(n / 10) + [DigitChar(n % 10)];
      assert s[..|s| - 1] == FormatNat(n / 10);
      s
  }

  /** Decimal representation of an integer (`int.ToString()`). */
  function FormatInt(n: int): (s: string)
    ensures s != []
  {
    if n < 0 then "-" + FormatNat(-n) else FormatNat(n)
  }

  /** Distinct numbers have distinct decimal representations. */
  lemma FormatNatInjective(m: nat, n: nat)
    requires FormatNat(m) == FormatNat(n)
    ensures m == n
  {
  }

  /** An optionally signed digit string, before the range check. */
  function SignedValue(t: string): (r: Option<int>)
    ensures r.Some? ==> t != []
  {
    if t != [] && (t[0] == '-' || t[0] == '+') then
      var ds := t[1..];
      if ds != [] && AllDigits(ds) then
        var v: int := DigitsValue(ds);
        Some(if t[0] == '-' then -v else v)
      else None
    else if t != [] && AllDigits(t) then Some(DigitsValue(t))
    else None
  }

  /** `int.TryParse(s, out v)`: surrounding number white space, an optional
      sign, at least one decimal digit, and a value within Int32. */
  function ParseInt32(s: string): (r: Option<int>)
    ensures r.Some? ==> InInt32(r.value)
  {
    match SignedValue(TrimBy(s, IsNumberWhite))
    case Some(v) => if InInt32(v) then Some(v) else None
    case None => None
  }

  /** Every Int32 value survives formatting followed by parsing. */
  lemma ParseFormatInt32(n: int)
    requires InInt32(n)
    ensures ParseInt32(FormatInt(n)) == Some(n)
  {
    var s := FormatInt(n);
    TrimByNoop(s, IsNumberWhite);
    if n < 0 {
      assert s[1..] == FormatNat(-n);
    }
  }

  /** A natural number beyond Int32 is rejected even though it is well
      formed, whatever width the column it was typed for. */
  lemma ParseRejectsBeyondInt32(n: nat)
    requires n > Int32Max
    ensures ParseInt32(FormatNat(n)) == None
  {
    var s := FormatNat(n);
    TrimByNoop(s, IsNumberWhite);
  }
}
