/**
 * The handful of Python `str` operations the system relies on, written out
 * over `seq<char>`: `strip`, `lstrip(chars)`, `startswith`, `endswith`,
 * `replace(pat, "")`, `rfind`, and `int()` / `str()` on non-negative
 * decimal numerals. `isdigit()` is taken to mean the ASCII digits '0'..'9'.
 */
module PyStr {

  /** The characters Python's `str.isspace()` accepts: the ones `strip()` removes. */
  predicate IsSpace(c: char) {
    || c == ' '
    || '\t' <= c <= '\r'
    || '\U{1C}' <= c <= '\U{1F}'
    || c == '\U{85}' || c == '\U{A0}' || c == '\U{1680}'
    || '\U{2000}' <= c <= '\U{200A}'
    || c == '\U{2028}' || c == '\U{2029}' || c == '\U{202F}' || c == '\U{205F}' || c == '\U{3000}'
  }

  /** Every character of `r` occurs in `s`. */
  predicate CharsWithin(r: string, s: string) {
    forall c | c in r :: c in s
  }

  lemma CharsWithinTrans(a: string, b: string, c: string)
    requires CharsWithin(a, b) && CharsWithin(b, c)
    ensures CharsWithin(a, c)
  {
  }

  predicate StartsWith(s: string, prefix: string) {
    |prefix| <= |s| && s[..|prefix|] == prefix
  }

  predicate EndsWith(s: string, suffix: string) {
    |suffix| <= |s| && s[|s| - |suffix|..] == suffix
  }

  /** The first index at or after `i` whose character is not `strippable` (or `|s|`). */
  function SkipForward(s: string, strippable: char -> bool, i: nat): (k: nat)
    requires i <= |s|
    ensures i <= k <= |s|
    ensures forall j | i <= j < k :: strippable(s[j])
    ensures k == |s| || !strippable(s[k])
    decreases |s| - i
  {
    if i < |s| && strippable(s[i]) then SkipForward(s, strippable, i + 1) else i
  }

  /** The least index `k >= lo` such that `s[k..j]` is all `strippable`. */
  function SkipBackward(s: string, strippable: char -> bool, lo: nat, j: nat): (k: nat)
    requires lo <= j <= |s|
    ensures lo <= k <= j
    ensures forall m | k <= m < j :: strippable(s[m])
    ensures k == lo || !strippable(s[k - 1])
    decreases j
  {
    if j > lo && strippable(s[j - 1]) then SkipBackward(s, strippable, lo, j - 1) else j
  }

  /** `s.lstrip(...)`: drops the longest prefix made only of characters satisfying `strippable`. */
  function LStrip(s: string, strippable: char -> bool): (r: string)
    ensures |r| <= |s| && r == s[|s| - |r|..]
    ensures r == [] || !strippable(r[0])
    ensures forall i | 0 <= i < |s| - |r| :: strippable(s[i])
  {
    s[SkipForward(s, strippable, 0)..]
  }

  /** Neither end of `s` is whitespace. */
  predicate Trimmed(s: string) {
    s == [] || (!IsSpace(s[0]) && !IsSpace(s[|s| - 1]))
  }

  /** `s.strip()`: `s` without its leading and trailing whitespace. */
  function Strip(s: string): (r: string)
    ensures Trimmed(r)
  {
    var lo := SkipForward(s, IsSpace, 0);
    var hi := SkipBackward(s, IsSpace, lo, |s|);
    s[lo..hi]
  }

  /** `strip()` never lengthens a text. */
  lemma StripShorter(s: string)
    ensures |Strip(s)| <= |s|
  {
  }

  /** `strip()` only removes characters. */
  lemma StripWithin(s: string)
    ensures CharsWithin(Strip(s), s)
  {
    var lo := SkipForward(s, IsSpace, 0);
    SliceMembers(s, lo, SkipBackward(s, IsSpace, lo, |s|));
  }

  /** The forward scan stops at the one index where the strippable run ends. */
  lemma SkipForwardAt(s: string, strippable: char -> bool, k: nat)
    requires k <= |s| && (k == |s| || !strippable(s[k]))
    requires forall j | 0 <= j < k :: strippable(s[j])
    ensures SkipForward(s, strippable, 0) == k
  {
  }

  /** The backward scan stops at the one index where the strippable run begins. */
  lemma SkipBackwardAt(s: string, strippable: char -> bool, lo: nat, j: nat, k: nat)
    requires lo <= k <= j <= |s| && (k == lo || !strippable(s[k - 1]))
    requires forall m | k <= m < j :: strippable(s[m])
    ensures SkipBackward(s, strippable, lo, j) == k
  {
  }

  /** Whitespace around a trimmed, non-empty text is exactly what `strip()` removes. */
  lemma StripAround(a: string, t: string, b: string)
    requires forall i | 0 <= i < |a| :: IsSpace(a[i])
    requires forall i | 0 <= i < |b| :: IsSpace(b[i])
    requires t != [] && !IsSpace(t[0]) && !IsSpace(t[|t| - 1])
    ensures Strip(a + t + b) == t
  {
    var s := a + t + b;
    assert s[|a|] == t[0];
    SkipForwardAt(s, IsSpace, |a|);
    assert s[|a| + |t| - 1] == t[|t| - 1];
    SkipBackwardAt(s, IsSpace, |a|, |s|, |a| + |t|);
    assert s[|a|..|a| + |t|] == t;
  }

  lemma SliceMembers(s: string, lo: nat, hi: nat)
    requires lo <= hi <= |s|
    ensures CharsWithin(s[lo..hi], s)
  {
    forall c | c in s[lo..hi] ensures c in s {
      var i :| 0 <= i < hi - lo && s[lo..hi][i] == c;
      assert s[lo + i] == c;
    }
  }

  /** A text made only of whitespace strips to the empty string. */
  lemma StripBlank(s: string)
    requires forall i | 0 <= i < |s| :: IsSpace(s[i])
    ensures Strip(s) == []
  {
    SkipForwardAt(s, IsSpace, |s|);
  }

  /** A string with no whitespace at either end is its own `strip()`. */
  lemma StripTrimmed(s: string)
    requires Trimmed(s)
    ensures Strip(s) == s
  {
  }

  /** `replace` leaves a string without the pattern's first character alone. */
  lemma {:induction false} RemoveAllAbsent(s: string, pat: string)
    requires |pat| > 0 && pat[0] !in s
    ensures RemoveAll(s, pat) == s
    decreases |s|
  {
    if |s| >= |pat| {
      assert s[..|pat|] != pat by { assert s[0] != pat[0]; }
      RemoveAllAbsent(s[1..], pat);
    }
  }

  /** Removing one character distributes over concatenation. */
  lemma {:induction false} RemoveCharConcat(a: string, b: string, c: char)
    ensures RemoveAll(a + b, [c]) == RemoveAll(a, [c]) + RemoveAll(b, [c])
    decreases |a|
  {
    if a == [] {
      assert a + b == b;
    } else {
      assert (a + b)[1..] == a[1..] + b;
      assert (a + b)[..1] == a[..1];
      RemoveCharConcat(a[1..], b, c);
    }
  }

  /** `s.replace(pat, "")`: Python scans left to right and removes non-overlapping occurrences. */
  function RemoveAll(s: string, pat: string): (r: string)
    requires |pat| > 0
    ensures |r| <= |s|
    ensures CharsWithin(r, s)
    ensures |pat| == 1 ==> pat[0] !in r
    decreases |s|
  {
    if |s| < |pat| then
      (if |pat| == 1 then assert s == []; s else s)
    else if s[..|pat|] == pat then RemoveAll(s[|pat|..], pat)
    else
      var rest := RemoveAll(s[1..], pat);
      assert forall c | c in rest :: c in s[1..];
      [s[0]] + rest
  }

  /**
   * The characters of `s` that are not in `drop`, in their order: the
   * independent description of what removing single characters leaves.
   */
  function Without(s: string, drop: set<char>): string
    decreases |s|
  {
    if s == [] then [] else (if s[0] in drop then [] else [s[0]]) + Without(s[1..], drop)
  }

  /** A character survives exactly when it was there and is not dropped. */
  lemma {:induction false} WithoutMembers(s: string, drop: set<char>, c: char)
    ensures c in Without(s, drop) <==> c in s && c !in drop
    decreases |s|
  {
    if s != [] {
      WithoutMembers(s[1..], drop, c);
      assert s == [s[0]] + s[1..];
    }
  }

  /** Dropping one set of characters and then another drops their union. */
  lemma {:induction false} WithoutWithout(s: string, a: set<char>, b: set<char>)
    ensures Without(Without(s, a), b) == Without(s, a + b)
    decreases |s|
  {
    if s != [] {
      WithoutWithout(s[1..], a, b);
      var head := if s[0] in a then [] else [s[0]];
      WithoutConcat(head, Without(s[1..], a), b);
      if s[0] !in a {
        assert Without(head, b) == if s[0] in b then [] else [s[0]] by {
          assert head[1..] == [];
        }
      }
    }
  }

  lemma {:induction false} WithoutConcat(x: string, y: string, drop: set<char>)
    ensures Without(x + y, drop) == Without(x, drop) + Without(y, drop)
    decreases |x|
  {
    if x == [] {
      assert x + y == y;
    } else {
      assert (x + y)[1..] == x[1..] + y;
      WithoutConcat(x[1..], y, drop);
    }
  }

  /** `s.replace(c, "")` for a single character `c` is `s` without `c`, every other character kept in order. */
  lemma {:induction false} RemoveCharIsWithout(s: string, c: char)
    ensures RemoveAll(s, [c]) == Without(s, {c})
    decreases |s|
  {
    if s != [] {
      RemoveCharIsWithout(s[1..], c);
      assert s[..1] == [s[0]];
    }
  }

  /**
   * `replace` removes an occurrence of the pattern and keeps what comes
   * before it, when nothing before it could start an earlier occurrence.
   */
  lemma {:induction false} RemoveAllOccurrence(a: string, b: string, pat: string)
    requires |pat| > 0 && pat[0] !in a
    ensures RemoveAll(a + pat + b, pat) == a + RemoveAll(b, pat)
    decreases |a|
  {
    var s := a + pat + b;
    if a == [] {
      assert s == pat + b;
      assert s[..|pat|] == pat && s[|pat|..] == b;
    } else {
      calc {
        RemoveAll(s, pat);
        { assert s[0] == a[0] && s[0] != pat[0]; assert s[..|pat|] != pat; }
        [s[0]] + RemoveAll(s[1..], pat);
        { assert s[1..] == a[1..] + pat + b; }
        [a[0]] + RemoveAll(a[1..] + pat + b, pat);
        { RemoveAllOccurrence(a[1..], b, pat); }
        [a[0]] + (a[1..] + RemoveAll(b, pat));
        { assert a == [a[0]] + a[1..]; }
        a + RemoveAll(b, pat);
      }
    }
  }

  /** True when `pat` occurs in `s` starting at index `i`. */
  predicate OccursAt(s: string, pat: string, i: int) {
    0 <= i && i + |pat| <= |s| && s[i..i + |pat|] == pat
  }

  /** The last start index at or below `i` where `pat` occurs, or -1. */
  function RFindBelow(s: string, pat: string, i: int): (r: int)
    requires -1 <= i <= |s| - |pat|
    ensures -1 <= r <= i
    ensures r >= 0 ==> OccursAt(s, pat, r)
    ensures forall j | r < j <= i :: !OccursAt(s, pat, j)
    decreases i + 1
  {
    if i < 0 then -1
    else if s[i..i + |pat|] == pat then i
    else RFindBelow(s, pat, i - 1)
  }

  /** `s.rfind(pat)`: the highest index where `pat` starts in `s`, or -1 when it never occurs. */
  function RFind(s: string, pat: string): (r: int)
    ensures r == -1 || 0 <= r <= |s| - |pat|
    ensures r >= 0 ==> OccursAt(s, pat, r)
    ensures forall j | r < j :: !OccursAt(s, pat, j)
  {
    if |s| < |pat| then -1 else RFindBelow(s, pat, |s| - |pat|)
  }

  /** When `s` ends with `pat`, the last occurrence of `pat` is that ending. */
  lemma RFindOfSuffix(s: string, pat: string)
    requires EndsWith(s, pat)
    ensures RFind(s, pat) == |s| - |pat|
  {
    assert OccursAt(s, pat, |s| - |pat|);
  }

  predicate IsDigit(c: char) {
    '0' <= c <= '9'
  }

  predicate AllDigits(s: string) {
    forall i | 0 <= i < |s| :: IsDigit(s[i])
  }

  function DigitValue(c: char): (d: nat)
    requires IsDigit(c)
    ensures d < 10
  {
    c as int - '0' as int
  }

  function DigitChar(d: nat): (c: char)
    requires d < 10
    ensures IsDigit(c) && DigitValue(c) == d
  {
    ('0' as int + d) as char
  }

  function Pow10(n: nat): (p: nat)
    ensures p >= 1
  {
    if n == 0 then 1 else 10 * Pow10(n - 1)
  }

  /** `int(s)` on a string of ASCII digits, read left to right as Python does. */
  function DecimalValue(s: string): (v: nat)
    requires AllDigits(s)
    ensures v < Pow10(|s|)
    decreases |s|
  {
    if s == [] then 0
    else
      var prefix := s[..|s| - 1];
      var v0 := DecimalValue(prefix);
      assert v0 <= Pow10(|prefix|) - 1;
      v0 * 10 + DigitValue(s[|s| - 1])
  }

  /** `str(n)` for a non-negative integer: decimal digits without leading zeros. */
  function NatToDecimal(n: nat): (r: string)
    ensures |r| >= 1 && AllDigits(r)
    ensures |r| > 1 ==> r[0] != '0'
    ensures DecimalValue(r) == n
    decreases n
  {
    if n < 10 then [DigitChar(n)]
    else
      var front := NatToDecimal(n / 10);
      var r := front + [DigitChar(n % 10)];
      assert r[..|r| - 1] == front;
      r
  }

  /** Reading the first digit off the front: `int(d + rest) == d * 10^|rest| + int(rest)`. */
  lemma {:induction false} DecimalValueFront(s: string)
    requires |s| > 0 && AllDigits(s)
    ensures DecimalValue(s) == DigitValue(s[0]) * Pow10(|s| - 1) + DecimalValue(s[1..])
    decreases |s|
  {
    if |s| == 1 {
      assert s[1..] == [];
      assert s[..|s| - 1] == [];
    } else {
      var p := s[..|s| - 1];
      var t := s[1..];
      var last := DigitValue(s[|s| - 1]);
      var d := DigitValue(s[0]);
      var q := Pow10(|p| - 1);
      DecimalValueFront(p);
      assert p[0] == s[0];
      assert p[1..] == t[..|t| - 1];
      assert t[|t| - 1] == s[|s| - 1];
      assert DecimalValue(s) == DecimalValue(p) * 10 + last;
      assert DecimalValue(p) == d * q + DecimalValue(p[1..]);
      assert DecimalValue(t) == DecimalValue(p[1..]) * 10 + last;
      assert Pow10(|s| - 1) == 10 * q;
      ShiftDigit(d, q);
    }
  }

  lemma ShiftDigit(d: int, q: int)
    ensures (d * q) * 10 == d * (10 * q)
  {
  }

  /** Python's `<` on strings: lexicographic by code point. */
  predicate LexLess(a: string, b: string)
    decreases |a|
  {
    if a == [] then b != []
    else b != [] && (a[0] < b[0] || (a[0] == b[0] && LexLess(a[1..], b[1..])))
  }

  lemma {:induction false} MulAtLeast(k: nat, p: nat)
    requires k >= 1
    ensures k * p >= p
    decreases k
  {
    if k > 1 {
      MulAtLeast(k - 1, p);
      assert k * p == (k - 1) * p + p;
    }
  }

  lemma MulStep(d1: nat, d2: nat, p: nat, r1: nat, r2: nat)
    requires d1 < d2 && p >= 1 && r1 < p
    ensures d1 * p + r1 < d2 * p + r2
  {
    MulAtLeast(d2 - d1, p);
    assert d2 * p == d1 * p + (d2 - d1) * p;
  }

  /**
   * For two digit strings of the same length, Python's string order and the
   * order of their integer values agree.
   */
  lemma {:induction false} LexLessIsNumeric(a: string, b: string)
    requires |a| == |b| && AllDigits(a) && AllDigits(b)
    ensures LexLess(a, b) <==> DecimalValue(a) < DecimalValue(b)
    decreases |a|
  {
    if a != [] {
      DecimalValueFront(a);
      DecimalValueFront(b);
      var p := Pow10(|a| - 1);
      var da, db := DigitValue(a[0]), DigitValue(b[0]);
      var ra, rb := DecimalValue(a[1..]), DecimalValue(b[1..]);
      if da < db {
        MulStep(da, db, p, ra, rb);
      } else if db < da {
        MulStep(db, da, p, rb, ra);
      } else {
        assert a[0] == b[0];
        LexLessIsNumeric(a[1..], b[1..]);
      }
    }
  }

  /** Equal-length digit strings with the same value are the same string. */
  lemma {:induction false} DecimalValueInjective(a: string, b: string)
    requires |a| == |b| && AllDigits(a) && AllDigits(b)
    requires DecimalValue(a) == DecimalValue(b)
    ensures a == b
    decreases |a|
  {
    if a != [] {
      DecimalValueFront(a);
      DecimalValueFront(b);
      var p := Pow10(|a| - 1);
      var da, db := DigitValue(a[0]), DigitValue(b[0]);
      var ra, rb := DecimalValue(a[1..]), DecimalValue(b[1..]);
      if da < db {
        MulStep(da, db, p, ra, rb);
      } else if db < da {
        MulStep(db, da, p, rb, ra);
      } else {
        assert a[0] == b[0];
        DecimalValueInjective(a[1..], b[1..]);
      }
    }
  }
}
