/** The number_literal token as the language of its regular expression:
    an optional sign, an optional radix prefix, a mantissa, an optional
    exponent and a run of suffix letters. Digit runs may carry `'`
    separators. The pattern accepts more than C does: a second radix prefix
    (`0x0x1F`), decimal digits after `0b`, hexadecimal digits in fractions
    and exponents, and any sequence of suffix letters. */
module NumberLiteral {

  predicate IsDecimal(c: char) { '0' <= c <= '9' }

  predicate IsHex(c: char) { IsDecimal(c) || 'a' <= c <= 'f' || 'A' <= c <= 'F' }

  predicate IsDigit(c: char, hex: bool) { if hex then IsHex(c) else IsDecimal(c) }

  predicate AllDigits(s: string, hex: bool) {
    forall i | 0 <= i < |s| :: IsDigit(s[i], hex)
  }

  // ---------------------------------------------------------------------------
  // Digit runs: seq(repeat1(digit), repeat(seq("'", repeat1(digit)))).

  predicate Digits(s: string, hex: bool) {
    exists k | 1 <= k <= |s| :: AllDigits(s[..k], hex) && Groups(s[k..], hex)
  }

  /** repeat(seq("'", repeat1(digit))) */
  predicate Groups(s: string, hex: bool)
    decreases |s|
  {
    s == [] || (s[0] == '\'' && exists k | 2 <= k <= |s| :: AllDigits(s[1..k], hex) && Groups(s[k..], hex))
  }

  /** Every character is a digit, or a `'` with a digit on each side. */
  predicate Separated(s: string, hex: bool) {
    s != [] && forall i | 0 <= i < |s| ::
      IsDigit(s[i], hex) || (s[i] == '\'' && 0 < i < |s| - 1 && IsDigit(s[i - 1], hex) && IsDigit(s[i + 1], hex))
  }

  /** The first `'` at or after from, or the end of s. */
  function NextQuote(s: string, from: nat): (m: nat)
    requires from <= |s|
    ensures from <= m <= |s| && (m < |s| ==> s[m] == '\'')
    ensures forall i | from <= i < m :: s[i] != '\''
    decreases |s| - from
  {
    if from == |s| || s[from] == '\'' then from else NextQuote(s, from + 1)
  }

  /** A separated run extended by a separator and more digits stays separated. */
  lemma SeparatedExtend(x: string, run: string, hex: bool)
    requires Separated(x, hex) && run != [] && AllDigits(run, hex)
    ensures Separated(x + (['\''] + run), hex)
  {
    var y := x + (['\''] + run);
    forall i | 0 <= i < |y|
      ensures IsDigit(y[i], hex) || (y[i] == '\'' && 0 < i < |y| - 1 && IsDigit(y[i - 1], hex) && IsDigit(y[i + 1], hex))
    {
      if i < |x| {
        assert y[i] == x[i];
        if !IsDigit(x[i], hex) {
          assert y[i - 1] == x[i - 1] && y[i + 1] == x[i + 1];
        }
      } else if i == |x| {
        assert y[i - 1] == x[|x| - 1] && y[i + 1] == run[0];
      } else {
        assert y[i] == run[i - |x| - 1];
      }
    }
  }

  lemma CutGroup(x: string, g: string, m: nat)
    requires 1 <= m <= |g|
    ensures x + g == (x + ([g[0]] + g[1..m])) + g[m..]
  {
    assert g == [g[0]] + g[1..m] + g[m..];
  }

  /** A separated prefix followed by separator groups is separated. */
  lemma {:induction false} GroupsExtend(x: string, g: string, hex: bool)
    requires Separated(x, hex) && Groups(g, hex)
    ensures Separated(x + g, hex)
    decreases |g|
  {
    if g == [] {
      assert x + g == x;
    } else {
      var m :| 2 <= m <= |g| && AllDigits(g[1..m], hex) && Groups(g[m..], hex);
      SeparatedExtend(x, g[1..m], hex);
      CutGroup(x, g, m);
      GroupsExtend(x + ([g[0]] + g[1..m]), g[m..], hex);
    }
  }

  /** The separator groups of a separated run, read from one of its `'`. */
  lemma {:induction false} SeparatedGroups(s: string, k: nat, hex: bool)
    requires Separated(s, hex) && 0 < k <= |s| && (k < |s| ==> s[k] == '\'')
    ensures Groups(s[k..], hex)
    decreases |s| - k
  {
    if k < |s| {
      var m := NextQuote(s, k + 1);
      var g := s[k..];
      assert IsDigit(s[k + 1], hex);
      var run := g[1..m - k];
      forall j | 0 <= j < |run| ensures IsDigit(run[j], hex) {
        assert run[j] == s[k + 1 + j];
      }
      assert g[m - k..] == s[m..];
      SeparatedGroups(s, m, hex);
      assert AllDigits(g[1..m - k], hex) && Groups(g[m - k..], hex);
    }
  }

  /** A digit run is exactly a non-empty string of digits in which every `'`
      stands between two digits: never first, never last, never doubled. */
  lemma DigitsAreSeparated(s: string, hex: bool)
    ensures Digits(s, hex) <==> Separated(s, hex)
  {
    if Digits(s, hex) {
      var k :| 1 <= k <= |s| && AllDigits(s[..k], hex) && Groups(s[k..], hex);
      GroupsExtend(s[..k], s[k..], hex);
      assert s[..k] + s[k..] == s;
    }
    if Separated(s, hex) {
      var k := NextQuote(s, 0);
      assert IsDigit(s[0], hex);
      assert AllDigits(s[..k], hex);
      SeparatedGroups(s, k, hex);
    }
  }

  // ---------------------------------------------------------------------------
  // The token.

  /** optional(/[-\+]/) */
  predicate Sign(s: string) { s == "" || s == "-" || s == "+" }

  /** optional(choice(/0[xX]/, /0[bB]/)) */
  predicate RadixPrefix(s: string) { s == "" || s == "0x" || s == "0X" || s == "0b" || s == "0B" }

  /** choice(decimalDigits, seq(/0[bB]/, decimalDigits), seq(/0[xX]/, hexDigits)) */
  predicate Mantissa(s: string) {
    Digits(s, false)
    || (|s| >= 2 && s[0] == '0' && (s[1] == 'b' || s[1] == 'B') && Digits(s[2..], false))
    || (|s| >= 2 && s[0] == '0' && (s[1] == 'x' || s[1] == 'X') && Digits(s[2..], true))
  }

  /** optional(seq('.', optional(hexDigits))) */
  predicate Fraction(s: string) {
    s == "" || (s[0] == '.' && (|s| == 1 || Digits(s[1..], true)))
  }

  /** choice(seq(mantissa, fraction), seq('.', decimalDigits)); the second
      alternative is an empty mantissa and a fraction of decimal digits. */
  predicate Body(mantissa: string, fraction: string) {
    (Mantissa(mantissa) && Fraction(fraction))
    || (mantissa == "" && |fraction| >= 1 && fraction[0] == '.' && Digits(fraction[1..], false))
  }

  /** optional(seq(/[eEpP]/, optional(seq(optional(/[-\+]/), hexDigits)))) */
  predicate Exponent(s: string) {
    s == "" || (ExponentMark(s[0]) && (|s| == 1 || Digits(s[1..], true)
                                      || (|s| >= 2 && (s[1] == '-' || s[1] == '+') && Digits(s[2..], true))))
  }

  /** /[eEpP]/ */
  predicate ExponentMark(c: char) { c == 'e' || c == 'E' || c == 'p' || c == 'P' }

  /** /[uUlLwWfFbBdD]/ */
  predicate SuffixLetter(c: char) {
    c == 'u' || c == 'U' || c == 'l' || c == 'L' || c == 'w' || c == 'W'
    || c == 'f' || c == 'F' || c == 'b' || c == 'B' || c == 'd' || c == 'D'
  }

  /** The suffix letters: any run of `uUlLwWfFbBdD`. */
  predicate Suffix(s: string) {
    forall i | 0 <= i < |s| :: SuffixLetter(s[i])
  }

  /** One way of cutting a string into the consecutive parts of the pattern. */
  datatype Parts = Parts(sign: string, prefix: string, mantissa: string, fraction: string,
                         exponent: string, suffix: string)
  {
    predicate Valid() {
      Sign(sign) && RadixPrefix(prefix) && Body(mantissa, fraction) && Exponent(exponent) && Suffix(suffix)
    }

    function Spelling(): string {
      sign + (prefix + (mantissa + (fraction + (exponent + suffix))))
    }
  }

  /** s matches the number_literal pattern: some cut of s into parts is valid. */
  ghost predicate IsNumberLiteral(s: string) {
    exists p: Parts :: p.Valid() && p.Spelling() == s
  }

  // ---------------------------------------------------------------------------
  // Separators.

  /** Every `'` in s has a hexadecimal digit on each side. */
  predicate QuotesBetweenDigits(s: string) {
    forall i | 0 <= i < |s| && s[i] == '\'' :: 0 < i < |s| - 1 && IsHex(s[i - 1]) && IsHex(s[i + 1])
  }

  lemma QuotesSplit(s: string, k: nat)
    requires k <= |s| && QuotesBetweenDigits(s[..k]) && QuotesBetweenDigits(s[k..])
    ensures QuotesBetweenDigits(s)
  {
    forall i | 0 <= i < |s| && s[i] == '\''
      ensures 0 < i < |s| - 1 && IsHex(s[i - 1]) && IsHex(s[i + 1])
    {
      if i < k {
        assert s[..k][i] == s[i];
        assert s[..k][i - 1] == s[i - 1] && s[..k][i + 1] == s[i + 1];
      } else {
        assert s[k..][i - k] == s[i];
        assert s[k..][i - k - 1] == s[i - 1] && s[k..][i - k + 1] == s[i + 1];
      }
    }
  }

  lemma QuotesJoin(x: string, y: string)
    requires QuotesBetweenDigits(x) && QuotesBetweenDigits(y)
    ensures QuotesBetweenDigits(x + y)
  {
    var s := x + y;
    assert s[..|x|] == x && s[|x|..] == y;
    QuotesSplit(s, |x|);
  }

  lemma DigitsQuotes(s: string, hex: bool)
    requires Digits(s, hex)
    ensures QuotesBetweenDigits(s) && IsDigit(s[0], hex)
  {
    DigitsAreSeparated(s, hex);
  }

  /** A digit run after a fixed lead of characters other than `'`. */
  lemma LeadThenDigits(s: string, n: nat, hex: bool)
    requires n <= |s| && Digits(s[n..], hex)
    requires forall i | 0 <= i < n :: s[i] != '\''
    ensures QuotesBetweenDigits(s)
  {
    DigitsQuotes(s[n..], hex);
    QuotesSplit(s, n);
  }

  lemma MantissaQuotes(s: string)
    requires Mantissa(s)
    ensures QuotesBetweenDigits(s) && s != [] && IsDecimal(s[0])
  {
    if Digits(s, false) {
      DigitsQuotes(s, false);
    } else {
      LeadThenDigits(s, 2, Digits(s[2..], true));
    }
  }

  lemma BodyQuotes(mantissa: string, fraction: string)
    requires Body(mantissa, fraction)
    ensures QuotesBetweenDigits(mantissa) && QuotesBetweenDigits(fraction)
  {
    if mantissa != "" {
      MantissaQuotes(mantissa);
    }
    if |fraction| > 1 {
      if Digits(fraction[1..], true) {
        LeadThenDigits(fraction, 1, true);
      } else {
        LeadThenDigits(fraction, 1, false);
      }
    }
  }

  lemma ExponentQuotes(s: string)
    requires Exponent(s)
    ensures QuotesBetweenDigits(s)
  {
    if |s| > 1 {
      if Digits(s[1..], true) {
        LeadThenDigits(s, 1, true);
      } else {
        LeadThenDigits(s, 2, true);
      }
    }
  }

  lemma QuotesJoinAll(a: string, b: string, c: string, d: string, e: string, f: string)
    requires QuotesBetweenDigits(a) && QuotesBetweenDigits(b) && QuotesBetweenDigits(c)
    requires QuotesBetweenDigits(d) && QuotesBetweenDigits(e) && QuotesBetweenDigits(f)
    ensures QuotesBetweenDigits(a + (b + (c + (d + (e + f)))))
  {
    QuotesJoin(e, f);
    QuotesJoin(d, e + f);
    QuotesJoin(c, d + (e + f));
    QuotesJoin(b, c + (d + (e + f)));
    QuotesJoin(a, b + (c + (d + (e + f))));
  }

  lemma PartsQuotes(p: Parts)
    requires p.Valid()
    ensures QuotesBetweenDigits(p.Spelling())
  {
    BodyQuotes(p.mantissa, p.fraction);
    ExponentQuotes(p.exponent);
    QuotesJoinAll(p.sign, p.prefix, p.mantissa, p.fraction, p.exponent, p.suffix);
  }

  /** Every `'` separator of a number literal stands between two digits of a
      run: never first, never last, never doubled. */
  lemma SeparatorsBetweenDigits(s: string)
    requires IsNumberLiteral(s)
    ensures QuotesBetweenDigits(s)
  {
    var p: Parts :| p.Valid() && p.Spelling() == s;
    PartsQuotes(p);
  }

  // ---------------------------------------------------------------------------
  // A leading `.`.

  /** A number literal that starts with `.` has a decimal digit right after it. */
  lemma LeadingDotHasDigit(s: string)
    requires IsNumberLiteral(s) && s != [] && s[0] == '.'
    ensures |s| >= 2 && IsDecimal(s[1])
  {
    var p: Parts :| p.Valid() && p.Spelling() == s;
    var rest := p.fraction + (p.exponent + p.suffix);
    assert p.sign == "";
    assert p.prefix == "";
    if p.mantissa != "" {
      MantissaQuotes(p.mantissa);
    } else {
      assert s == rest;
      if Mantissa(p.mantissa) {
        DigitsQuotes(p.mantissa, false);
      }
      DigitsQuotes(p.fraction[1..], false);
      assert s[1] == p.fraction[1];
    }
  }

  // ---------------------------------------------------------------------------
  // The alphabet.

  /** The characters a number literal can contain: hexadecimal digits, the
      separator, `.`, the signs, the radix and exponent letters that are not
      hexadecimal digits, and the suffix letters. */
  predicate NumberChar(c: char) {
    IsHex(c) || SuffixLetter(c) || ExponentMark(c)
    || c == '\'' || c == '.' || c == '-' || c == '+' || c == 'x' || c == 'X'
  }

  predicate InAlphabet(s: string) {
    forall i | 0 <= i < |s| :: NumberChar(s[i])
  }

  lemma AlphabetSplit(s: string, k: nat)
    requires k <= |s| && InAlphabet(s[..k]) && InAlphabet(s[k..])
    ensures InAlphabet(s)
  {
    forall i | 0 <= i < |s| ensures NumberChar(s[i]) {
      if i < k { assert s[..k][i] == s[i]; } else { assert s[k..][i - k] == s[i]; }
    }
  }

  lemma AlphabetJoin(x: string, y: string)
    requires InAlphabet(x) && InAlphabet(y)
    ensures InAlphabet(x + y)
  {
    var s := x + y;
    assert s[..|x|] == x && s[|x|..] == y;
    AlphabetSplit(s, |x|);
  }

  lemma LeadThenDigitsAlphabet(s: string, n: nat, hex: bool)
    requires n <= |s| && Digits(s[n..], hex) && InAlphabet(s[..n])
    ensures InAlphabet(s)
  {
    DigitsAreSeparated(s[n..], hex);
    AlphabetSplit(s, n);
  }

  lemma MantissaAlphabet(s: string)
    requires Mantissa(s)
    ensures InAlphabet(s)
  {
    if Digits(s, false) {
      LeadThenDigitsAlphabet(s, 0, false);
    } else {
      LeadThenDigitsAlphabet(s, 2, Digits(s[2..], true));
    }
  }

  lemma BodyAlphabet(mantissa: string, fraction: string)
    requires Body(mantissa, fraction)
    ensures InAlphabet(mantissa) && InAlphabet(fraction)
  {
    if mantissa != "" {
      MantissaAlphabet(mantissa);
    }
    if |fraction| > 1 {
      LeadThenDigitsAlphabet(fraction, 1, Digits(fraction[1..], true));
    }
  }

  lemma ExponentAlphabet(s: string)
    requires Exponent(s)
    ensures InAlphabet(s)
  {
    if |s| > 1 {
      if Digits(s[1..], true) {
        LeadThenDigitsAlphabet(s, 1, true);
      } else {
        LeadThenDigitsAlphabet(s, 2, true);
      }
    }
  }

  lemma AlphabetJoinAll(a: string, b: string, c: string, d: string, e: string, f: string)
    requires InAlphabet(a) && InAlphabet(b) && InAlphabet(c)
    requires InAlphabet(d) && InAlphabet(e) && InAlphabet(f)
    ensures InAlphabet(a + (b + (c + (d + (e + f)))))
  {
    AlphabetJoin(e, f);
    AlphabetJoin(d, e + f);
    AlphabetJoin(c, d + (e + f));
    AlphabetJoin(b, c + (d + (e + f)));
    AlphabetJoin(a, b + (c + (d + (e + f))));
  }

  lemma PartsAlphabet(p: Parts)
    requires p.Valid()
    ensures InAlphabet(p.Spelling())
  {
    BodyAlphabet(p.mantissa, p.fraction);
    ExponentAlphabet(p.exponent);
    AlphabetJoinAll(p.sign, p.prefix, p.mantissa, p.fraction, p.exponent, p.suffix);
  }

  /** A number literal is spelled only with digits, separators, `.`, signs,
      radix and exponent letters, and the suffix letters `uUlLwWfFbBdD`. */
  lemma NumberLiteralAlphabet(s: string)
    requires IsNumberLiteral(s)
    ensures InAlphabet(s)
  {
    var p: Parts :| p.Valid() && p.Spelling() == s;
    PartsAlphabet(p);
  }

  // ---------------------------------------------------------------------------
  // What the pattern accepts and rejects.

  /** Single-run digits, no separator. */
  lemma PlainDigits(s: string, hex: bool)
    requires s != [] && AllDigits(s, hex)
    ensures Digits(s, hex)
  {
    assert s[..|s|] == s && s[|s|..] == [];
  }

  /** A radix prefix is accepted twice over: `0x0x1F`. */
  lemma DoubledHexPrefixAccepted()
    ensures IsNumberLiteral("0x0x1F")
  {
    var m := "0x1F";
    PlainDigits(m[2..], true);
    var p := Parts("", "0x", m, "", "", "");
    assert p.Valid();
    assert p.Spelling() == "0x0x1F";
  }

  /** A binary literal takes decimal digits: `0b19`. */
  lemma BinaryTakesDecimalDigits()
    ensures IsNumberLiteral("0b19")
  {
    var m := "0b19";
    PlainDigits(m[2..], false);
    var p := Parts("", "", m, "", "", "");
    assert p.Valid();
    assert p.Spelling() == "0b19";
  }

  lemma QuoteAt(s: string, i: nat)
    requires QuotesBetweenDigits(s) && i < |s| && s[i] == '\''
    ensures 0 < i < |s| - 1 && IsHex(s[i - 1]) && IsHex(s[i + 1])
  {
  }

  /** A doubled separator is rejected: `1''0`. */
  lemma DoubledSeparatorRejected()
    ensures !IsNumberLiteral("1''0")
  {
    if IsNumberLiteral("1''0") {
      SeparatorsBetweenDigits("1''0");
      QuoteAt("1''0", 1);
    }
  }

  /** A separator can neither open nor close a literal: `'1` and `1'`. */
  lemma EdgeSeparatorRejected()
    ensures !IsNumberLiteral("'1") && !IsNumberLiteral("1'")
  {
    if IsNumberLiteral("'1") {
      SeparatorsBetweenDigits("'1");
      QuoteAt("'1", 0);
    }
    if IsNumberLiteral("1'") {
      SeparatorsBetweenDigits("1'");
      QuoteAt("1'", 1);
    }
  }

  /** A lone `.` is not a number literal. */
  lemma LoneDotRejected()
    ensures !IsNumberLiteral(".")
  {
    if IsNumberLiteral(".") {
      LeadingDotHasDigit(".");
    }
  }
}
