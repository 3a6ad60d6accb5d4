/**
 * Text primitives the repository borrows from .NET, restricted to ASCII:
 * decimal formatting of integers (string interpolation), `long.Parse` of a
 * digit run, `ToLowerInvariant`, `StringComparison.OrdinalIgnoreCase`
 * searches and `string.Split(char)`.
 */
module Text {
  import opened Common

  // ---------------------------------------------------------------- digits

  predicate IsDigit(c: char) {
    '0' <= c <= '9'
  }

  predicate AllDigits(s: string) {
    forall i :: 0 <= i < |s| ==> IsDigit(s[i])
  }

  function DigitChar(d: nat): (c: char)
    requires d < 10
    ensures IsDigit(c) && c as int - '0' as int == d
  {
    ('0' as int + d) as char
  }

  /** Decimal text of a natural number, as interpolation prints it. */
  function NatToDecimal(n: nat): (s: string)
    ensures 1 <= |s| && AllDigits(s)
    ensures |s| > 1 ==> s[0] != '0'
  {
    if n < 10 then [DigitChar(n)] else NatToDecimal(n / 10) + [DigitChar(n % 10)]
  }

  /** Decimal text of an integer: a minus sign before negative values. */
  function IntToDecimal(n: int): (s: string)
    ensures 1 <= |s| && (n < 0 <==> s[0] == '-')
    ensures n < 0 ==> AllDigits(s[1..])
    ensures n >= 0 ==> AllDigits(s)
  {
    if n < 0 then "-" + NatToDecimal(-n) else NatToDecimal(n)
  }

  /** The number a run of decimal digits denotes (what `long.Parse` computes). */
  function DecimalValue(s: string): nat
    requires AllDigits(s)
  {
    if s == [] then 0 else 10 * DecimalValue(s[..|s| - 1]) + (s[|s| - 1] as int - '0' as int)
  }

  /** Printing and then parsing a natural number gives it back. */
  lemma {:induction false} DecimalRoundTrip(n: nat)
    ensures DecimalValue(NatToDecimal(n)) == n
  {
    if n >= 10 {
      var s := NatToDecimal(n);
      assert s[..|s| - 1] == NatToDecimal(n / 10);
      DecimalRoundTrip(n / 10);
    }
  }

  /** Different numbers never print the same. */
  lemma NatToDecimalInjective(m: nat, n: nat)
    requires NatToDecimal(m) == NatToDecimal(n)
    ensures m == n
  {
    DecimalRoundTrip(m);
    DecimalRoundTrip(n);
  }

  /** Different integers never print the same, whatever their signs. */
  lemma IntToDecimalInjective(m: int, n: int)
    requires IntToDecimal(m) == IntToDecimal(n)
    ensures m == n
  {
    var a, b := IntToDecimal(m), IntToDecimal(n);
    if m < 0 && n < 0 {
      assert a[1..] == NatToDecimal(-m) && b[1..] == NatToDecimal(-n);
      NatToDecimalInjective(-m, -n);
    } else if m >= 0 && n >= 0 {
      NatToDecimalInjective(m, n);
    }
  }

  /** `long.Parse` of an optionally signed digit run; `None` for anything else. */
  function ParseInt(s: string): (r: Option<int>)
    ensures r.Some? ==> s != [] && (r.value < 0 ==> s[0] == '-') && (s[0] != '-' ==> r.value >= 0)
    ensures s == [] || s == "-" ==> r.None?
  {
    if |s| >= 2 && s[0] == '-' && AllDigits(s[1..]) then Some(-(DecimalValue(s[1..]) as int))
    else if |s| >= 1 && AllDigits(s) then Some(DecimalValue(s))
    else None
  }

  /** Parsing the printed form of any integer gives it back. */
  lemma ParseIntRoundTrip(n: int)
    ensures ParseInt(IntToDecimal(n)) == Some(n)
  {
    var s := IntToDecimal(n);
    if n < 0 {
      assert s[1..] == NatToDecimal(-n);
      DecimalRoundTrip(-n);
    } else {
      assert s[0] != '-';
      DecimalRoundTrip(n);
    }
  }

  /** Three decimal digits, with leading zeros. */
  function Pad3(k: nat): (s: string)
    requires k < 1000
  {
    [DigitChar(k / 10 / 10), DigitChar(k / 10 % 10), DigitChar(k % 10)]
  }

  /** The `N0` format: decimal digits grouped by three with ','. */
  function GroupedDecimal(n: nat): (s: string)
    ensures 1 <= |s| && IsDigit(s[0]) && IsDigit(s[|s| - 1])
    ensures ',' in s <==> n >= 1000
  {
    if n < 1000 then NatToDecimal(n) else GroupedDecimal(n / 1000) + "," + Pad3(n % 1000)
  }

  predicate IsGroupedChar(c: char) {
    IsDigit(c) || c == ','
  }

  /** The number a grouped digit string denotes, its separators skipped. */
  function GroupedValue(s: string): nat
    requires forall i :: 0 <= i < |s| ==> IsGroupedChar(s[i])
  {
    if s == [] then 0
    else if s[|s| - 1] == ',' then GroupedValue(s[..|s| - 1])
    else
      assert IsGroupedChar(s[|s| - 1]);
      10 * GroupedValue(s[..|s| - 1]) + (s[|s| - 1] as int - '0' as int)
  }

  lemma {:induction false} GroupedValueOfDigits(s: string)
    requires AllDigits(s)
    ensures GroupedValue(s) == DecimalValue(s)
  {
    if s != [] {
      GroupedValueOfDigits(s[..|s| - 1]);
    }
  }

  /** Reading an `N0`-formatted number back, separators skipped, gives the number. */
  lemma {:induction false} GroupedDecimalRoundTrip(n: nat)
    ensures forall i :: 0 <= i < |GroupedDecimal(n)| ==> IsGroupedChar(GroupedDecimal(n)[i])
    ensures GroupedValue(GroupedDecimal(n)) == n
  {
    if n < 1000 {
      GroupedValueOfDigits(NatToDecimal(n));
      DecimalRoundTrip(n);
    } else {
      GroupedDecimalRoundTrip(n / 1000);
      AppendGroup(GroupedDecimal(n / 1000), n % 1000);
    }
  }

  /** One more group of three digits multiplies the value so far by 1000. */
  lemma AppendGroup(a: string, k: nat)
    requires k < 1000
    requires forall i :: 0 <= i < |a| ==> IsGroupedChar(a[i])
    ensures forall i :: 0 <= i < |a + "," + Pad3(k)| ==> IsGroupedChar((a + "," + Pad3(k))[i])
    ensures GroupedValue(a + "," + Pad3(k)) == 1000 * GroupedValue(a) + k
  {
    var s := a + "," + Pad3(k);
    forall i | 0 <= i < |s| ensures IsGroupedChar(s[i]) {
      if i < |a| {
        assert s[i] == a[i];
      }
    }
    var s1, s2, s3 := s[..|s| - 1], s[..|s| - 2], s[..|s| - 3];
    assert s1[..|s1| - 1] == s2 && s2[..|s2| - 1] == s3 && s3[..|s3| - 1] == a;
    var d1, d2, d3 := k / 10 / 10, k / 10 % 10, k % 10;
    assert s[|s| - 1] == DigitChar(d3) && s1[|s1| - 1] == DigitChar(d2) && s2[|s2| - 1] == DigitChar(d1);
    assert s3[|s3| - 1] == ',';
    assert GroupedValue(s) == 10 * GroupedValue(s1) + d3;
    assert GroupedValue(s1) == 10 * GroupedValue(s2) + d2;
    assert GroupedValue(s2) == 10 * GroupedValue(s3) + d1;
    assert GroupedValue(s3) == GroupedValue(a);
    ThreeDigits(k);
  }

  lemma ThreeDigits(k: nat)
    ensures 100 * (k / 10 / 10) + 10 * (k / 10 % 10) + k % 10 == k
  {
    var q := k / 10;
    assert k == 10 * q + k % 10;
    assert q == 10 * (q / 10) + q % 10;
  }

  // ------------------------------------------------------------ ASCII case

  function ToLowerAscii(c: char): char {
    if 'A' <= c <= 'Z' then (c as int + 32) as char else c
  }

  function ToUpperAscii(c: char): char {
    if 'a' <= c <= 'z' then (c as int - 32) as char else c
  }

  /** `ToLowerInvariant`, restricted to ASCII letters. */
  function LowerAscii(s: string): (r: string)
    ensures |r| == |s|
    ensures forall i :: 0 <= i < |s| ==> r[i] == ToLowerAscii(s[i])
  {
    if s == [] then [] else [ToLowerAscii(s[0])] + LowerAscii(s[1..])
  }

  /** Two strings are equal under `OrdinalIgnoreCase` (ASCII case folding): a reflexive relation between strings of one length. */
  predicate EqualsIgnoreCase(a: string, b: string)
    ensures EqualsIgnoreCase(a, b) ==> |a| == |b|
    ensures a == b ==> EqualsIgnoreCase(a, b)
  {
    |a| == |b| && forall i :: 0 <= i < |a| ==> ToUpperAscii(a[i]) == ToUpperAscii(b[i])
  }

  /** Folding two characters to upper case agrees exactly when folding them to lower case does. */
  lemma FoldsAgree(x: char, y: char)
    ensures ToUpperAscii(x) == ToUpperAscii(y) <==> ToLowerAscii(x) == ToLowerAscii(y)
  {
  }

  /** Comparing folded to upper case, as `OrdinalIgnoreCase` does, is comparing the lower-case forms. */
  lemma EqualsIgnoreCaseIsLowerEqual(a: string, b: string)
    ensures EqualsIgnoreCase(a, b) <==> LowerAscii(a) == LowerAscii(b)
  {
    if |a| == |b| {
      var la, lb := LowerAscii(a), LowerAscii(b);
      forall i | 0 <= i < |a|
        ensures ToUpperAscii(a[i]) == ToUpperAscii(b[i]) <==> la[i] == lb[i]
      {
        FoldsAgree(a[i], b[i]);
      }
      if EqualsIgnoreCase(a, b) {
        assert la == lb;
      } else {
        var i :| 0 <= i < |a| && ToUpperAscii(a[i]) != ToUpperAscii(b[i]);
        assert la[i] != lb[i];
      }
    } else {
      assert |LowerAscii(a)| != |LowerAscii(b)|;
    }
  }

  /** `p` occurs in `s` at index `i`, ignoring case. */
  predicate OccursAt(s: string, p: string, i: nat) {
    i + |p| <= |s| && EqualsIgnoreCase(s[i..i + |p|], p)
  }

  /** `s.Contains(p, StringComparison.OrdinalIgnoreCase)`. */
  function ContainsIgnoreCase(s: string, p: string): (b: bool)
    ensures b <==> exists i :: 0 <= i <= |s| - |p| && OccursAt(s, p, i)
    decreases |s|
  {
    if |s| < |p| then false
    else if EqualsIgnoreCase(s[..|p|], p) then
      assert OccursAt(s, p, 0);
      true
    else
      var rest := ContainsIgnoreCase(s[1..], p);
      assert s[..|p|] == s[0..|p|];
      ShiftOccurrence(s, p);
      rest
  }

  /** Occurrences in `s[1..]` are the occurrences in `s` after index 0. */
  lemma ShiftOccurrence(s: string, p: string)
    requires |s| >= 1
    ensures forall i :: 0 <= i <= |s| - 1 - |p| && OccursAt(s[1..], p, i) ==> OccursAt(s, p, i + 1)
    ensures forall j :: 1 <= j <= |s| - |p| && OccursAt(s, p, j) ==> OccursAt(s[1..], p, j - 1)
  {
    forall i | 0 <= i <= |s| - 1 - |p|
      ensures OccursAt(s[1..], p, i) <==> OccursAt(s, p, i + 1)
    {
      assert s[1..][i..i + |p|] == s[i + 1..i + 1 + |p|];
    }
    forall j | 1 <= j <= |s| - |p|
      ensures OccursAt(s, p, j) ==> OccursAt(s[1..], p, j - 1)
    {
      assert s[1..][j - 1..j - 1 + |p|] == s[j..j + |p|];
    }
  }

  /** `s.Contains(p)` with ordinal (exact) comparison. */
  predicate Contains(s: string, p: string) {
    exists i :: 0 <= i <= |s| - |p| && ExactlyAt(s, p, i)
  }

  predicate ExactlyAt(s: string, p: string, i: nat) {
    i + |p| <= |s| && s[i..i + |p|] == p
  }

  // ------------------------------------------------------------- splitting

  /** Index of the first `c` in `s`, or `|s|` when there is none. */
  function IndexOf(s: string, c: char): (k: nat)
    ensures k <= |s|
    ensures k < |s| ==> s[k] == c
    ensures forall i :: 0 <= i < k ==> s[i] != c
  {
    if s == [] then 0 else if s[0] == c then 0 else 1 + IndexOf(s[1..], c)
  }

  /** The pieces joined back with the separator between them. */
  function JoinWith(parts: seq<string>, sep: char): string
    requires |parts| >= 1
  {
    if |parts| == 1 then parts[0] else parts[0] + [sep] + JoinWith(parts[1..], sep)
  }

  /** `s.Split(sep)`: the separator-free pieces that rebuild `s`. */
  function SplitOn(s: string, sep: char): (parts: seq<string>)
    ensures |parts| >= 1
    ensures JoinWith(parts, sep) == s
    ensures forall i :: 0 <= i < |parts| ==> sep !in parts[i]
    decreases |s|
  {
    var k := IndexOf(s, sep);
    if k == |s| then
      [s]
    else
      var rest := SplitOn(s[k + 1..], sep);
      assert s == s[..k] + [sep] + s[k + 1..];
      [s[..k]] + rest
  }

  /** Splitting text that starts with a separator-free piece. */
  lemma SplitOnPrefix(a: string, sep: char, b: string)
    requires sep !in a
    ensures SplitOn(a + [sep] + b, sep) == [a] + SplitOn(b, sep)
  {
    var s := a + [sep] + b;
    var k := IndexOf(s, sep);
    assert forall i :: 0 <= i < |a| ==> s[i] == a[i];
    assert s[|a|] == sep;
    assert k == |a|;
    assert s[..k] == a && s[k + 1..] == b;
  }
}
