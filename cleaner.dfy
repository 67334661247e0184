/**
 * The value cleaner applied to every cell the report endpoints publish
 * (`clean_value_string` in main.py): trim, detect a parenthesised negative,
 * remove the currency marker and separators, and put the minus sign back.
 */
module ValueCleaner {
  import opened Wrappers
  import opened PyStr

  const CurrencyMarker := "Rp"

  /** `s.startswith('(') and s.endswith(')')`. */
  predicate Parenthesized(s: string) {
    StartsWith(s, "(") && EndsWith(s, ")")
  }

  /** None of the separators the cleaner removes. */
  predicate NoSeparators(s: string) {
    '.' !in s && ',' !in s && ' ' !in s
  }

  /**
   * The chain `.replace('Rp', '').replace('.', '').replace(',', '').replace(' ', '').strip()`,
   * applied in that order, so that a marker formed only by a later removal survives.
   */
  function Scrub(s: string): (r: string)
    ensures NoSeparators(r)
    ensures CharsWithin(r, s)
    ensures Trimmed(r)
  {
    var noMarker := RemoveAll(s, CurrencyMarker);
    var noDots := RemoveAll(noMarker, ".");
    var noCommas := RemoveAll(noDots, ",");
    var noSpaces := RemoveAll(noCommas, " ");
    CharsWithinTrans(noDots, noMarker, s);
    CharsWithinTrans(noCommas, noDots, s);
    CharsWithinTrans(noSpaces, noCommas, s);
    var r := Strip(noSpaces);
    StripWithin(noSpaces);
    CharsWithinTrans(r, noSpaces, s);
    r
  }

  /**
   * For every input the chain keeps, in their order, all characters other
   * than '.', ',' and ' ' of what the marker removal left, and then strips
   * the ends.
   */
  lemma ScrubKeeps(s: string)
    ensures Scrub(s) == Strip(Without(RemoveAll(s, CurrencyMarker), {'.', ',', ' '}))
  {
    var m := RemoveAll(s, CurrencyMarker);
    RemoveCharIsWithout(m, '.');
    RemoveCharIsWithout(Without(m, {'.'}), ',');
    WithoutWithout(m, {'.'}, {','});
    RemoveCharIsWithout(Without(m, {'.'} + {','}), ' ');
    WithoutWithout(m, {'.'} + {','}, {' '});
    assert {'.'} + {','} + {' '} == {'.', ',', ' '};
  }

  /** Without an 'R' there is no marker: only the separators and the outer whitespace go. */
  lemma ScrubUnmarked(s: string)
    requires 'R' !in s
    ensures Scrub(s) == Strip(Without(s, {'.', ',', ' '}))
  {
    RemoveAllAbsent(s, CurrencyMarker);
    ScrubKeeps(s);
  }

  /** The text between the parentheses of a parenthesised trimmed value. */
  function Inner(s: string): (r: string)
    requires Parenthesized(s)
    ensures |r| == |s| - 2 && CharsWithin(r, s)
  {
    assert s[..1] == "(" && s[|s| - 1..] == ")";
    assert s[0] == '(' && s[|s| - 1] == ')';
    SliceMembers(s, 1, |s| - 1);
    s[1..|s| - 1]
  }

  /**
   * `clean_value_string`: None stays None; any string is cleaned and the
   * result never holds a '.', ',' or space. The parenthesis test looks at the
   * trimmed input before anything is removed.
   */
  function CleanValue(v: Option<string>): (r: Option<string>)
    ensures v.None? <==> r.None?
    ensures r.Some? ==> NoSeparators(r.value)
  {
    match v
    case None => None
    case Some(raw) =>
      var s := Strip(raw);
      if Parenthesized(s) then Some("-" + Scrub(Inner(s))) else Some(Scrub(s))
  }

  /**
   * A parenthesised trimmed input gets a leading `-`, followed by
   * characters of the input only. Any other input yields only characters it
   * already holds, so no sign is invented.
   */
  lemma CleanValueSign(raw: string)
    ensures var r := CleanValue(Some(raw)).value;
      && (Parenthesized(Strip(raw)) ==> |r| >= 1 && r[0] == '-' && CharsWithin(r[1..], raw))
      && (!Parenthesized(Strip(raw)) ==> CharsWithin(r, raw))
  {
    var s := Strip(raw);
    StripWithin(raw);
    if Parenthesized(s) {
      var cleaned := Scrub(Inner(s));
      CharsWithinTrans(cleaned, Inner(s), s);
      CharsWithinTrans(cleaned, s, raw);
      assert ("-" + cleaned)[1..] == cleaned;
    } else {
      CharsWithinTrans(Scrub(s), s, raw);
    }
  }

  /** A value that is already trimmed and not parenthesised is only scrubbed. */
  lemma CleanTrimmedPlain(raw: string)
    requires Strip(raw) == raw && !Parenthesized(raw)
    ensures CleanValue(Some(raw)) == Some(Scrub(raw))
  {
  }

  /** A value that is already trimmed and parenthesised is scrubbed inside and negated. */
  lemma CleanTrimmedParenthesized(raw: string)
    requires Strip(raw) == raw && Parenthesized(raw)
    ensures CleanValue(Some(raw)) == Some("-" + Scrub(Inner(raw)))
  {
  }

  /** Scrub, one removal at a time. */
  lemma ScrubSteps(s: string, noMarker: string, noDots: string, noCommas: string, noSpaces: string)
    requires RemoveAll(s, CurrencyMarker) == noMarker
    requires RemoveAll(noMarker, ".") == noDots
    requires RemoveAll(noDots, ",") == noCommas
    requires RemoveAll(noCommas, " ") == noSpaces
    requires Strip(noSpaces) == noSpaces
    ensures Scrub(s) == noSpaces
  {
  }

  /** Removing a single character from a string split around one of its occurrences. */
  lemma RemoveAround(a: string, b: string, c: char)
    requires c !in a
    ensures RemoveAll(a + [c] + b, [c]) == a + RemoveAll(b, [c])
  {
    RemoveCharConcat(a + [c], b, c);
    RemoveCharConcat(a, [c], c);
    RemoveAllAbsent(a, [c]);
    assert RemoveAll([c], [c]) == RemoveAll([], [c]);
  }

  /** The marker removal when the string starts with the marker. */
  lemma RemoveLeadingMarker(rest: string)
    requires 'R' !in rest
    ensures RemoveAll(CurrencyMarker + rest, CurrencyMarker) == rest
  {
    var s := CurrencyMarker + rest;
    assert s[..2] == CurrencyMarker && s[2..] == rest;
    RemoveAllAbsent(rest, CurrencyMarker);
  }

  /** Removing one character that occurs exactly twice, between three runs without it. */
  lemma RemoveTwice(a: string, b: string, d: string, c: char)
    requires c !in a && c !in b && c !in d
    ensures RemoveAll(a + [c] + b + [c] + d, [c]) == a + b + d
  {
    assert a + [c] + b + [c] + d == a + [c] + (b + [c] + d);
    RemoveAround(a, b + [c] + d, c);
    RemoveAround(b, d, c);
    RemoveAllAbsent(d, [c]);
    assert a + (b + d) == a + b + d;
  }

  /** An unbracketed trimmed value, cleaned one removal at a time. */
  lemma CleanUnbracketedSteps(raw: string, noMarker: string, noDots: string, noCommas: string, kept: string)
    requires raw != [] && raw[0] != '(' && !IsSpace(raw[0]) && !IsSpace(raw[|raw| - 1])
    requires RemoveAll(raw, CurrencyMarker) == noMarker
    requires RemoveAll(noMarker, ".") == noDots
    requires RemoveAll(noDots, ",") == noCommas
    requires RemoveAll(noCommas, " ") == kept
    requires Trimmed(kept)
    ensures CleanValue(Some(raw)) == Some(kept)
  {
    CleanUnbracketed(raw);
    StripTrimmed(kept);
    ScrubSteps(raw, noMarker, noDots, noCommas, kept);
  }

  /** A trimmed value not opening with '(' is cleaned by Scrub alone. */
  lemma CleanUnbracketed(raw: string)
    requires raw != [] && raw[0] != '(' && !IsSpace(raw[0]) && !IsSpace(raw[|raw| - 1])
    ensures CleanValue(Some(raw)) == Some(Scrub(raw))
  {
    StripTrimmed(raw);
    CleanTrimmedPlain(raw);
  }

  lemma ThousandsMarker(raw: string, rest: string)
    requires raw == "Rp 1.234.567" && rest == " 1.234.567"
    ensures RemoveAll(raw, CurrencyMarker) == rest
  {
    assert raw == CurrencyMarker + rest;
    RemoveLeadingMarker(rest);
  }

  lemma ThousandsDots(s: string, r: string)
    requires s == " 1.234.567" && r == " 1234567"
    ensures RemoveAll(s, ".") == r
  {
    var a, b, d := " 1", "234", "567";
    assert s == a + ['.'] + b + ['.'] + d;
    RemoveTwice(a, b, d, '.');
    assert a + b + d == r;
  }

  lemma LeadingSpace(s: string, r: string)
    requires s == [' '] + r && ' ' !in r
    ensures RemoveAll(s, " ") == r
  {
    assert s == [] + [' '] + r;
    RemoveAround([], r, ' ');
    RemoveAllAbsent(r, " ");
  }

  lemma ThousandsRest(s: string, r: string)
    requires s == " 1234567" && r == "1234567"
    ensures RemoveAll(s, ",") == s && RemoveAll(s, " ") == r
  {
    RemoveAllAbsent(s, ",");
    LeadingSpace(s, r);
  }

  lemma CleanThousands(raw: string)
    requires raw == "Rp 1.234.567"
    ensures CleanValue(Some(raw)) == Some("1234567")
  {
    var noMarker, noDots, digits := " 1.234.567", " 1234567", "1234567";
    ThousandsMarker(raw, noMarker);
    ThousandsDots(noMarker, noDots);
    ThousandsRest(noDots, digits);
    CleanUnbracketedSteps(raw, noMarker, noDots, noDots, digits);
  }

  lemma CleanParenthesisedNegative(raw: string)
    requires raw == "(500)"
    ensures CleanValue(Some(raw)) == Some("-500")
  {
    var digits := "500";
    NegativeInner(raw, digits);
    CleanTrimmedParenthesized(raw);
    ScrubDigits(digits);
    assert "-" + digits == "-500";
  }

  lemma NegativeInner(raw: string, digits: string)
    requires raw == "(500)" && digits == "500"
    ensures Strip(raw) == raw && Parenthesized(raw) && Inner(raw) == digits
  {
    StripTrimmed(raw);
    assert Parenthesized(raw);
  }

  lemma ScrubDigits(digits: string)
    requires digits == "500"
    ensures Scrub(digits) == digits
  {
    RemoveAllAbsent(digits, CurrencyMarker);
    RemoveAllAbsent(digits, ".");
    RemoveAllAbsent(digits, ",");
    RemoveAllAbsent(digits, " ");
    StripTrimmed(digits);
    ScrubSteps(digits, digits, digits, digits, digits);
  }

  lemma BracketedMarker(raw: string, rest: string)
    requires raw == "Rp (1.000,50)" && rest == " (1.000,50)"
    ensures RemoveAll(raw, CurrencyMarker) == rest
  {
    assert raw == CurrencyMarker + rest;
    RemoveLeadingMarker(rest);
  }

  lemma BracketedDot(s: string, r: string)
    requires s == " (1.000,50)" && r == " (1000,50)"
    ensures RemoveAll(s, ".") == r
  {
    var a, b := " (1", "000,50)";
    assert s == a + ['.'] + b;
    assert a + b == r;
    RemoveSingle(s, a, b, '.', r);
  }

  lemma BracketedComma(s: string, r: string)
    requires s == " (1000,50)" && r == " (100050)"
    ensures RemoveAll(s, ",") == r
  {
    var a, b := " (1000", "50)";
    assert s == a + [','] + b;
    assert a + b == r;
    RemoveSingle(s, a, b, ',', r);
  }

  /** Removing a character that occurs exactly once. */
  lemma RemoveSingle(s: string, a: string, b: string, c: char, r: string)
    requires s == a + [c] + b && c !in a && c !in b && r == a + b
    ensures RemoveAll(s, [c]) == r
  {
    RemoveAround(a, b, c);
    RemoveAllAbsent(b, [c]);
  }

  lemma BracketedSpace(s: string, r: string)
    requires s == " (100050)" && r == "(100050)"
    ensures RemoveAll(s, " ") == r
  {
    LeadingSpace(s, r);
  }

  /** The parenthesis test runs before the marker is removed, so this stays positive. */
  lemma CleanMarkerBeforeParenthesis(raw: string)
    requires raw == "Rp (1.000,50)"
    ensures CleanValue(Some(raw)) == Some("(100050)")
  {
    var noMarker, noDots, noCommas, kept := " (1.000,50)", " (1000,50)", " (100050)", "(100050)";
    BracketedMarker(raw, noMarker);
    BracketedDot(noMarker, noDots);
    BracketedComma(noDots, noCommas);
    BracketedSpace(noCommas, kept);
    CleanUnbracketedSteps(raw, noMarker, noDots, noCommas, kept);
  }

  lemma LateMarker(raw: string)
    requires raw == "R.p1"
    ensures RemoveAll(raw, CurrencyMarker) == raw
  {
    assert raw[..2] != CurrencyMarker by { assert raw[1] == '.'; }
    assert raw[1..] == ".p1";
    RemoveAllAbsent(".p1", CurrencyMarker);
  }

  lemma LateDot(raw: string, joined: string)
    requires raw == "R.p1" && joined == "Rp1"
    ensures RemoveAll(raw, ".") == joined
  {
    assert raw == "R" + ['.'] + "p1";
    assert "R" + "p1" == joined;
    RemoveSingle(raw, "R", "p1", '.', joined);
  }

  lemma LateRest(s: string)
    requires s == "Rp1"
    ensures RemoveAll(s, ",") == s && RemoveAll(s, " ") == s
  {
    RemoveAllAbsent(s, ",");
    RemoveAllAbsent(s, " ");
  }

  /** The removals run one after another: deleting '.' can form a marker that is kept. */
  lemma CleanMarkerFormedLate(raw: string)
    requires raw == "R.p1"
    ensures CleanValue(Some(raw)) == Some("Rp1")
  {
    var joined := "Rp1";
    LateMarker(raw);
    LateDot(raw, joined);
    LateRest(joined);
    CleanUnbracketedSteps(raw, raw, joined, joined, joined);
  }
}
