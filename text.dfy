/**
 * The string operations the helper relies on: the whitespace test behind
 * `string.IsNullOrWhiteSpace`, `string.Trim(char)`, case-insensitive
 * comparison of names, and the decimal rendering of `int.ToString()`.
 */
module Text {
  import opened Outcomes

  /** `char.IsWhiteSpace`: the Unicode space, line and paragraph separators and the controls U+0009-U+000D and U+0085. */
  predicate IsWhiteSpace(c: char) {
    || '\U{0009}' <= c <= '\U{000D}'
    || c == '\U{0020}' || c == '\U{0085}' || c == '\U{00A0}' || c == '\U{1680}'
    || '\U{2000}' <= c <= '\U{200A}'
    || c == '\U{2028}' || c == '\U{2029}' || c == '\U{202F}' || c == '\U{205F}' || c == '\U{3000}'
  }

  /** `string.IsNullOrWhiteSpace`: null, empty, or only whitespace. */
  predicate IsNullOrWhiteSpace(s: Option<string>): (r: bool)
    ensures s.None? || s.value == [] ==> r
    ensures s.Some? && |s.value| > 0 && !IsWhiteSpace(s.value[0]) ==> !r
    ensures s.Some? && |s.value| > 0 && !IsWhiteSpace(s.value[|s.value| - 1]) ==> !r
  {
    s.None? || forall i :: 0 <= i < |s.value| ==> IsWhiteSpace(s.value[i])
  }

  /** `s` neither starts nor ends with `c`. */
  predicate Unpadded(s: string, c: char) {
    s == [] || (s[0] != c && s[|s| - 1] != c)
  }

  /** How many copies of `c` the string starts with. */
  function LeadingCount(s: string, c: char): (n: nat)
    ensures n <= |s|
    ensures forall k :: 0 <= k < n ==> s[k] == c
    ensures n < |s| ==> s[n] != c
  {
    if s == [] || s[0] != c then 0 else 1 + LeadingCount(s[1..], c)
  }

  /** How many copies of `c` the string ends with. */
  function TrailingCount(s: string, c: char): (n: nat)
    ensures n <= |s|
    ensures forall k :: |s| - n <= k < |s| ==> s[k] == c
    ensures n < |s| ==> s[|s| - 1 - n] != c
  {
    if s == [] || s[|s| - 1] != c then 0 else 1 + TrailingCount(s[..|s| - 1], c)
  }

  /**
   * `string.Trim(char)`: the slice from the first character that is not `c`
   * up to and including the last one; empty when every character is `c`.
   */
  function Trim(s: string, c: char): (r: string)
    ensures Unpadded(r, c)
    ensures exists i, j :: 0 <= i <= j <= |s| && r == s[i..j]
                           && (forall k :: 0 <= k < i ==> s[k] == c)
                           && (forall k :: j <= k < |s| ==> s[k] == c)
  {
    var i := LeadingCount(s, c);
    if i == |s| then
      assert [] == s[i..i];
      []
    else
      var j := |s| - TrailingCount(s, c);
      assert i < j;
      s[i..j]
  }

  /** Trimming a string that is already unpadded returns it unchanged. */
  lemma TrimUnpadded(s: string, c: char)
    requires Unpadded(s, c)
    ensures Trim(s, c) == s
  {
    if s != [] {
      assert LeadingCount(s, c) == 0;
      assert TrailingCount(s, c) == 0;
      assert s[0..|s|] == s;
    }
  }

  /** Trimming an unpadded string with one `c` on each side gives back that string. */
  lemma TrimSurrounded(s: string, c: char)
    requires Unpadded(s, c)
    ensures Trim([c] + s + [c], c) == s
  {
    var t := [c] + s + [c];
    assert t[1..] == s + [c];
    assert t[..|t| - 1] == [c] + s;
    if s == [] {
      assert LeadingCount(t, c) == 2;
    } else {
      assert LeadingCount(t[1..], c) == 0;
      assert TrailingCount(t[..|t| - 1], c) == 0;
      assert t[1..|t| - 1] == s;
    }
  }

  /** Trimming an unpadded string with one `c` put in front gives back that string. */
  lemma TrimPrefixed(s: string, c: char)
    requires Unpadded(s, c)
    ensures Trim([c] + s, c) == s
  {
    var t := [c] + s;
    assert t[1..] == s;
    if s == [] {
      assert LeadingCount(t, c) == 1;
    } else {
      assert LeadingCount(t[1..], c) == 0;
      assert TrailingCount(t, c) == 0;
    }
  }

  /** Trimming is idempotent. */
  lemma TrimIdempotent(s: string, c: char)
    ensures Trim(Trim(s, c), c) == Trim(s, c)
  {
    TrimUnpadded(Trim(s, c), c);
  }

  /** ASCII upper-case letters folded to lower case; every other character kept. */
  function ToLower(c: char): (r: char)
    ensures 'A' <= c <= 'Z' ==> r as int == c as int + 32
    ensures !('A' <= c <= 'Z') ==> r == c
  {
    if 'A' <= c <= 'Z' then (c as int + 32) as char else c
  }

  /** The string with every character folded. */
  function Lower(s: string): (r: string)
    ensures |r| == |s|
    ensures forall i :: 0 <= i < |s| ==> r[i] == ToLower(s[i])
  {
    if s == [] then [] else [ToLower(s[0])] + Lower(s[1..])
  }

  /** Ordinal comparison ignoring case. */
  predicate EqualsIgnoreCase(a: string, b: string) {
    Lower(a) == Lower(b)
  }

  /** The decimal digit for `d`. */
  function Digit(d: nat): (c: char)
    requires d < 10
    ensures '0' <= c <= '9' && c as int - '0' as int == d
  {
    (d + '0' as int) as char
  }

  /** The decimal numeral of a natural number, without leading zeros. */
  function NatToString(n: nat): (s: string)
    ensures |s| > 0
    ensures forall i :: 0 <= i < |s| ==> '0' <= s[i] <= '9'
    ensures |s| > 1 ==> s[0] != '0'
  {
    if n < 10 then [Digit(n)] else NatToString(n / 10) + [Digit(n % 10)]
  }

  /** `int.ToString()` with an ASCII minus sign before the magnitude of a negative number. */
  function IntToString(n: int): (s: string)
    ensures |s| > 0
    ensures n < 0 <==> s[0] == '-'
  {
    if n < 0 then "-" + NatToString(-n) else NatToString(n)
  }

  /** The value of a string of decimal digits. */
  function DigitsValue(s: string): nat
    requires forall i :: 0 <= i < |s| ==> '0' <= s[i] <= '9'
  {
    if s == [] then 0 else DigitsValue(s[..|s| - 1]) * 10 + (s[|s| - 1] as int - '0' as int)
  }

  /** Reads back a numeral written by `IntToString`; `None` for anything that is not one. */
  function ParseInt(s: string): Option<int> {
    if |s| > 1 && s[0] == '-' && forall i :: 1 <= i < |s| ==> '0' <= s[i] <= '9' then Some(-(DigitsValue(s[1..]) as int))
    else if |s| > 0 && forall i :: 0 <= i < |s| ==> '0' <= s[i] <= '9' then Some(DigitsValue(s))
    else None
  }

  /** Reading back a natural numeral gives the number. */
  lemma {:induction false} NatToStringRoundTrip(n: nat)
    ensures DigitsValue(NatToString(n)) == n
  {
    if n >= 10 {
      var s := NatToString(n);
      NatToStringRoundTrip(n / 10);
      assert s[..|s| - 1] == NatToString(n / 10);
    }
  }

  /** A minus sign followed by a natural numeral reads back as the negated number. */
  lemma NegativeRoundTrip(n: nat)
    requires n > 0
    ensures ParseInt("-" + NatToString(n)) == Some(-(n as int))
  {
    var m := NatToString(n);
    var s := "-" + m;
    NatToStringRoundTrip(n);
    assert s[1..] == m;
    forall i | 1 <= i < |s| ensures '0' <= s[i] <= '9' {
      assert s[i] == m[i - 1];
    }
  }

  /** `ParseInt` inverts `IntToString`. */
  lemma IntToStringRoundTrip(n: int)
    ensures ParseInt(IntToString(n)) == Some(n)
  {
    if n < 0 {
      NegativeRoundTrip(-n);
    } else {
      NatToStringRoundTrip(n);
      assert IntToString(n)[0] != '-';
    }
  }

  /** Distinct integers have distinct decimal renderings. */
  lemma IntToStringInjective(a: int, b: int)
    ensures IntToString(a) == IntToString(b) <==> a == b
  {
    if IntToString(a) == IntToString(b) {
      IntToStringRoundTrip(a);
      IntToStringRoundTrip(b);
    }
  }
}
