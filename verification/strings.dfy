/** String helpers with the semantics of the JavaScript string methods the
    original code calls (`lastIndexOf`, `startsWith`, `split`, `parseInt`,
    number-to-string). */
module Strings {

  predicate IsPrefix(p: string, s: string)
  {
    |p| <= |s| && s[..|p|] == p
  }

  predicate IsSuffix(p: string, s: string)
  {
    |p| <= |s| && s[|s| - |p|..] == p
  }

  /** `sub` occurs in `s` starting at index `j`. */
  predicate OccursAt(s: string, sub: string, j: int)
  {
    0 <= j && j + |sub| <= |s| && s[j..j + |sub|] == sub
  }

  predicate Contains(s: string, sub: string)
  {
    exists j | 0 <= j <= |s| :: OccursAt(s, sub, j)
  }

  /** The greatest occurrence of `sub` at or below `j`, or -1. */
  function LastIndexAtOrBelow(s: string, sub: string, j: int): (r: int)
    requires j <= |s|
    ensures r == -1 || (OccursAt(s, sub, r) && r <= j)
    ensures forall k | r < k <= j :: !OccursAt(s, sub, k)
    decreases j + 1
  {
    if j < 0 then -1
    else if OccursAt(s, sub, j) then j
    else LastIndexAtOrBelow(s, sub, j - 1)
  }

  /** JavaScript `s.lastIndexOf(sub)`. */
  function LastIndexOf(s: string, sub: string): (r: int)
    ensures r == -1 || OccursAt(s, sub, r)
    ensures forall k | r < k :: !OccursAt(s, sub, k)
  {
    LastIndexAtOrBelow(s, sub, |s|)
  }

  /** JavaScript `s.lastIndexOf(c)` for a one-character argument. */
  function LastIndexOfChar(s: string, c: char): (r: int)
    ensures -1 <= r < |s|
    ensures r >= 0 ==> s[r] == c
    ensures forall k | r < k < |s| :: s[k] != c
    decreases |s|
  {
    if |s| == 0 then -1
    else if s[|s| - 1] == c then |s| - 1
    else LastIndexOfChar(s[..|s| - 1], c)
  }

  /** The first index of `c` in `s`, or -1 (JavaScript `indexOf`). */
  function IndexOfChar(s: string, c: char): (r: int)
    ensures -1 <= r < |s|
    ensures r >= 0 ==> s[r] == c
    ensures forall k | 0 <= k < |s| && (r == -1 || k < r) :: s[k] != c
  {
    if |s| == 0 then -1
    else if s[0] == c then 0
    else
      var r := IndexOfChar(s[1..], c);
      if r == -1 then -1 else r + 1
  }

  /** Glues `parts` together with `sep` between neighbours. */
  function JoinWith(parts: seq<string>, sep: char): string
  {
    if |parts| == 0 then ""
    else if |parts| == 1 then parts[0]
    else parts[0] + [sep] + JoinWith(parts[1..], sep)
  }

  /** JavaScript `s.split(sep)`: never empty, no piece holds `sep`, and the
      pieces glue back to `s`. */
  function Split(s: string, sep: char): (parts: seq<string>)
    ensures |parts| >= 1
    ensures forall i | 0 <= i < |parts| :: sep !in parts[i]
    ensures JoinWith(parts, sep) == s
    decreases |s|
  {
    var k := IndexOfChar(s, sep);
    if k == -1 then [s]
    else
      var rest := Split(s[k + 1..], sep);
      assert s == s[..k] + [sep] + s[k + 1..];
      [s[..k]] + rest
  }

  predicate IsDigit(c: char)
  {
    '0' <= c <= '9'
  }

  predicate AllDigits(s: string)
  {
    forall i | 0 <= i < |s| :: IsDigit(s[i])
  }

  /** A decimal numeral as `Number.prototype.toString` writes it. */
  predicate Canonical(s: string)
  {
    |s| >= 1 && AllDigits(s) && (|s| > 1 ==> s[0] != '0')
  }

  function DigitValue(c: char): nat
    requires IsDigit(c)
  {
    (c as int - '0' as int) as nat
  }

  function DigitChar(d: nat): (c: char)
    requires d < 10
    ensures IsDigit(c) && DigitValue(c) == d
  {
    ('0' as int + d) as char
  }

  /** The value `parseInt` gives a non-empty run of decimal digits. */
  function DigitsValue(s: string): nat
    requires AllDigits(s)
    decreases |s|
  {
    if |s| == 0 then 0
    else DigitsValue(s[..|s| - 1]) * 10 + DigitValue(s[|s| - 1])
  }

  /** Decimal rendering of a natural number; reading it back gives `n`. */
  function NatToString(n: nat): (s: string)
    ensures Canonical(s)
    ensures DigitsValue(s) == n
    decreases n
  {
    if n < 10 then [DigitChar(n)]
    else
      var front := NatToString(n / 10);
      var s := front + [DigitChar(n % 10)];
      assert s[..|s| - 1] == front;
      s
  }

  /** Every canonical numeral is the rendering of its own value. */
  lemma {:induction false} CanonicalRoundTrip(s: string)
    requires Canonical(s)
    ensures NatToString(DigitsValue(s)) == s
    decreases |s|
  {
    var n := DigitsValue(s);
    if |s| == 1 {
      assert s[..|s| - 1] == [];
      assert DigitsValue(s[..|s| - 1]) == 0;
      assert n == DigitValue(s[0]);
      assert n < 10;
      assert NatToString(n) == [DigitChar(n)];
    } else {
      var front := s[..|s| - 1];
      assert Canonical(front) by {
        assert front[0] == s[0];
        assert forall i | 0 <= i < |front| :: front[i] == s[i];
      }
      CanonicalRoundTrip(front);
      DigitsValueFrontPositive(front);
      assert n / 10 == DigitsValue(front);
      assert n % 10 == DigitValue(s[|s| - 1]);
      assert DigitChar(n % 10) == s[|s| - 1];
      assert s == front + [s[|s| - 1]];
    }
  }

  lemma DigitsValueFrontPositive(s: string)
    requires Canonical(s)
    ensures DigitsValue(s) >= 1 || |s| == 1
  {
    if |s| > 1 {
      DigitsValueAtLeastLead(s);
    }
  }

  lemma {:induction false} DigitsValueAtLeastLead(s: string)
    requires |s| >= 1 && AllDigits(s)
    ensures DigitsValue(s) >= DigitValue(s[0])
    decreases |s|
  {
    if |s| > 1 {
      DigitsValueAtLeastLead(s[..|s| - 1]);
    }
  }
}
