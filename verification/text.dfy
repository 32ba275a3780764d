/** The `java.lang.String` and Spring `StringUtils` operations the services rely on,
    over `string` = `seq<char>`. */
module Text {
  import opened Wrappers

  predicate StartsWith(s: string, prefix: string) {
    |prefix| <= |s| && s[..|prefix|] == prefix
  }

  /** `s.contains(t)`, written so that it unfolds on literals. */
  predicate Contains(s: string, t: string)
    decreases |s|
  {
    StartsWith(s, t) || (|s| > 0 && Contains(s[1..], t))
  }

  /** `Contains` holds exactly when `t` occurs at some position of `s`. */
  lemma {:induction false} ContainsIff(s: string, t: string)
    ensures Contains(s, t) <==> exists i :: 0 <= i <= |s| && StartsWith(s[i..], t)
    decreases |s|
  {
    assert s[0..] == s;
    if |s| > 0 {
      ContainsIff(s[1..], t);
      if Contains(s[1..], t) {
        var i :| 0 <= i <= |s[1..]| && StartsWith(s[1..][i..], t);
        assert s[1..][i..] == s[i + 1..];
      }
      if exists i :: 0 <= i <= |s| && StartsWith(s[i..], t) {
        var i :| 0 <= i <= |s| && StartsWith(s[i..], t);
        if i > 0 {
          assert s[1..][i - 1..] == s[i..];
        }
      }
    }
  }

  /** `t` found at position `i` of `s`. */
  lemma ContainsAt(s: string, i: nat, t: string)
    requires i + |t| <= |s| && s[i..i + |t|] == t
    ensures Contains(s, t)
  {
    assert s[i..][..|t|] == t;
    ContainsIff(s, t);
  }

  /** Any string containing `t` as an infix contains `t`. */
  lemma ContainsInfix(a: string, t: string, b: string)
    ensures Contains(a + t + b, t)
  {
    var s := a + t + b;
    assert s[|a|..|a| + |t|] == t;
    ContainsAt(s, |a|, t);
  }

  /** Every character of a contained string occurs in the containing one. */
  lemma ContainedCharsOccur(s: string, t: string, c: char)
    requires Contains(s, t) && c in t
    ensures c in s
  {
    ContainsIff(s, t);
    var i :| 0 <= i <= |s| && StartsWith(s[i..], t);
    var j :| 0 <= j < |t| && t[j] == c;
    assert s[i..][..|t|][j] == s[i + j];
  }

  /** A string lacking one of `t`'s characters does not contain `t`. */
  lemma MissingCharNotContained(s: string, t: string, c: char)
    requires c in t && c !in s
    ensures !Contains(s, t)
  {
    if Contains(s, t) {
      ContainedCharsOccur(s, t, c);
    }
  }

  /** Decimal text holds only digits and a minus sign. */
  lemma IntToStringChars(i: int, c: char)
    requires !IsAsciiDigit(c) && c != '-'
    ensures c !in IntToString(i)
  {
    if i < 0 {
      assert IntToString(i) == "-" + NatToString(-i);
    }
  }

  /** Text in front keeps an occurrence. */
  lemma {:induction false} ContainsAfter(p: string, s: string, t: string)
    requires Contains(s, t)
    ensures Contains(p + s, t)
    decreases |p|
  {
    if |p| == 0 {
      assert p + s == s;
    } else {
      ContainsAfter(p[1..], s, t);
      assert (p + s)[1..] == p[1..] + s;
    }
  }

  /** Text behind keeps an occurrence. */
  lemma ContainsBefore(s: string, t: string, q: string)
    requires Contains(s, t)
    ensures Contains(s + q, t)
  {
    ContainsIff(s, t);
    var i :| 0 <= i <= |s| && StartsWith(s[i..], t);
    assert (s + q)[i..][..|t|] == s[i..][..|t|];
    ContainsIff(s + q, t);
  }

  /** An occurrence survives text on both sides. */
  lemma ContainsWithin(p: string, s: string, q: string, t: string)
    requires Contains(s, t)
    ensures Contains(p + s + q, t)
  {
    ContainsAfter(p, s, t);
    ContainsBefore(p + s, t, q);
  }

  /** A character `String.trim()` removes from either end (code point at most U+0020). */
  predicate IsTrimmable(c: char) {
    c <= ' '
  }

  function LeadingTrimmable(s: string): (n: nat)
    ensures n <= |s|
    ensures forall k :: 0 <= k < n ==> IsTrimmable(s[k])
    ensures n < |s| ==> !IsTrimmable(s[n])
  {
    if |s| == 0 || !IsTrimmable(s[0]) then 0
    else
      var rest := LeadingTrimmable(s[1..]);
      assert forall k :: 1 <= k < rest + 1 ==> s[k] == s[1..][k - 1];
      1 + rest
  }

  function TrailingTrimmable(s: string): (n: nat)
    ensures n <= |s|
    ensures forall k :: |s| - n <= k < |s| ==> IsTrimmable(s[k])
    ensures n < |s| ==> !IsTrimmable(s[|s| - n - 1])
  {
    if |s| == 0 || !IsTrimmable(s[|s| - 1]) then 0
    else 1 + TrailingTrimmable(s[..|s| - 1])
  }

  /** `s.trim()`: `s` without its leading and trailing characters at most U+0020. */
  function Trim(s: string): (r: string)
    ensures |r| <= |s|
    ensures |r| == 0 <==> forall k :: 0 <= k < |s| ==> IsTrimmable(s[k])
    ensures |r| > 0 ==> !IsTrimmable(r[0]) && !IsTrimmable(r[|r| - 1])
    ensures |r| > 0 ==> LeadingTrimmable(s) + |r| <= |s|
    ensures |r| > 0 ==> r == s[LeadingTrimmable(s)..LeadingTrimmable(s) + |r|]
    ensures (forall k :: 0 <= k < |s| ==> !IsTrimmable(s[k])) ==> r == s
  {
    var a := LeadingTrimmable(s);
    if a == |s| then
      assert s[0..0] == [];
      []
    else
      var b := |s| - TrailingTrimmable(s);
      assert a < b;
      s[a..b]
  }

  /** Trimming twice trims nothing more. */
  lemma TrimIdempotent(s: string)
    ensures Trim(Trim(s)) == Trim(s)
  {
    var r := Trim(s);
    if |r| > 0 {
      assert LeadingTrimmable(r) == 0;
      assert TrailingTrimmable(r) == 0;
      assert r[0..|r|] == r;
    }
  }

  /** `s.trim().isEmpty()`, the services' test for a missing text field. */
  predicate IsBlank(s: string) {
    |Trim(s)| == 0
  }

  /** A text field as the services read it: null and blank mean "not given";
      anything else is taken trimmed. */
  function GivenText(s: Option<string>): (r: Option<string>)
    ensures r.Some? <==> s.Some? && !IsBlank(s.value)
    ensures r.Some? ==> r.value == Trim(s.value) && |r.value| > 0
  {
    if s.Some? && !IsBlank(s.value) then Some(Trim(s.value)) else None
  }

  /** ASCII letters folded to lower case; every other character unchanged. */
  function LowerAscii(c: char): char {
    if 'A' <= c <= 'Z' then (c as int + 32) as char else c
  }

  /** `a.equalsIgnoreCase(b)` with case folding restricted to ASCII letters. */
  predicate EqualsIgnoreCase(a: string, b: string) {
    |a| == |b| && forall i :: 0 <= i < |a| ==> LowerAscii(a[i]) == LowerAscii(b[i])
  }

  /** `s.lastIndexOf(c)`: the last position holding `c`, or -1. */
  function LastIndexOf(s: string, c: char): (r: int)
    ensures -1 <= r < |s|
    ensures r >= 0 ==> s[r] == c
    ensures forall k :: r < k < |s| ==> s[k] != c
  {
    if |s| == 0 then -1
    else if s[|s| - 1] == c then |s| - 1
    else LastIndexOf(s[..|s| - 1], c)
  }

  /** `Character.isWhitespace(c)`: the Unicode space, line and paragraph separators other
      than the no-break spaces, plus U+0009..U+000D and U+001C..U+001F. */
  predicate IsJavaWhitespace(c: char) {
    var n := c as int;
    || n == 0x20
    || (0x09 <= n <= 0x0D)
    || (0x1C <= n <= 0x1F)
    || n == 0x1680
    || (0x2000 <= n <= 0x2006)
    || (0x2008 <= n <= 0x200A)
    || n == 0x2028
    || n == 0x2029
    || n == 0x205F
    || n == 0x3000
  }

  /** Spring's `StringUtils.hasText`: non-null, non-empty, and not all whitespace. */
  predicate HasText(s: string) {
    |s| > 0 && exists i :: 0 <= i < |s| && !IsJavaWhitespace(s[i])
  }

  predicate IsAsciiDigit(c: char) {
    '0' <= c <= '9'
  }

  function DigitChar(d: nat): (c: char)
    requires d < 10
    ensures IsAsciiDigit(c)
  {
    ('0' as int + d) as char
  }

  /** Decimal text of a natural number (`Integer.toString`, `Long.toString`). */
  function NatToString(n: nat): (r: string)
    ensures |r| > 0
    ensures forall k :: 0 <= k < |r| ==> IsAsciiDigit(r[k])
    decreases n
  {
    if n < 10 then [DigitChar(n)] else NatToString(n / 10) + [DigitChar(n % 10)]
  }

  /** Decimal text of an integer, with a leading '-' when negative. */
  function IntToString(i: int): string {
    if i < 0 then "-" + NatToString(-i) else NatToString(i)
  }
}
