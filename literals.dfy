/** Escape sequences, character literals, string literals and the system
    header names of `#include <...>`, each as the language of its pattern
    over the characters of the source text. */
module Literals {
  import NumberLiteral

  predicate AllDecimal(s: string) {
    forall i | 0 <= i < |s| :: NumberLiteral.IsDecimal(s[i])
  }

  predicate AllHex(s: string) {
    forall i | 0 <= i < |s| :: NumberLiteral.IsHex(s[i])
  }

  // ---------------------------------------------------------------------------
  // escape_sequence: a backslash followed by one of five forms.

  /** /[^xuU]/: any one character other than x, u and U, newline included. */
  predicate SimpleEscape(b: string) {
    |b| == 1 && b[0] != 'x' && b[0] != 'u' && b[0] != 'U'
  }

  /** /\d{2,3}/ */
  predicate DigitsEscape(b: string) {
    2 <= |b| <= 3 && AllDecimal(b)
  }

  /** /x[0-9a-fA-F]{1,4}/ */
  predicate HexEscape(b: string) {
    2 <= |b| <= 5 && b[0] == 'x' && AllHex(b[1..])
  }

  /** /u[0-9a-fA-F]{4}/ */
  predicate ShortUniversal(b: string) {
    |b| == 5 && b[0] == 'u' && AllHex(b[1..])
  }

  /** /U[0-9a-fA-F]{8}/ */
  predicate LongUniversal(b: string) {
    |b| == 9 && b[0] == 'U' && AllHex(b[1..])
  }

  predicate IsEscapeSequence(s: string) {
    |s| >= 2 && s[0] == '\\'
    && (SimpleEscape(s[1..]) || DigitsEscape(s[1..]) || HexEscape(s[1..])
        || ShortUniversal(s[1..]) || LongUniversal(s[1..]))
  }

  /** How many of the five forms match b; the choice is unambiguous when
      this is at most one. */
  function FormsMatching(b: string): (n: nat)
    ensures n <= 5
  {
    (if SimpleEscape(b) then 1 else 0) + (if DigitsEscape(b) then 1 else 0)
    + (if HexEscape(b) then 1 else 0) + (if ShortUniversal(b) then 1 else 0)
    + (if LongUniversal(b) then 1 else 0)
  }

  /** An escape sequence is a backslash and two to ten characters in all, and
      exactly one of the five forms matches what follows the backslash. */
  lemma EscapeShape(s: string)
    requires IsEscapeSequence(s)
    ensures 2 <= |s| <= 10 && s[0] == '\\'
    ensures FormsMatching(s[1..]) == 1
  {
    var b := s[1..];
    if DigitsEscape(b) {
      assert NumberLiteral.IsDecimal(b[0]);
    }
  }

  // ---------------------------------------------------------------------------
  // Bodies of character and string literals.

  datatype Quote = SingleQuote | DoubleQuote

  function QuoteChar(q: Quote): char {
    if q == SingleQuote then '\'' else '"'
  }

  /** A character that stands for itself in a body: /[^\n']/ in a character
      literal, /[^\\"\n]/ in a string literal. A run of string_content,
      /[^\\"\n]+/, is a run of such characters. */
  predicate Plain(c: char, q: Quote) {
    c != '\n' && if q == SingleQuote then c != '\'' else c != '"' && c != '\\'
  }

  /** repeat(choice(plain character, escape_sequence)) */
  predicate Body(b: string, q: Quote)
    decreases |b|
  {
    b == []
    || (Plain(b[0], q) && Body(b[1..], q))
    || (exists k | 2 <= k <= |b| :: IsEscapeSequence(b[..k]) && Body(b[k..], q))
  }

  /** Position i of b lies inside an escape sequence. */
  predicate EscapedAt(b: string, i: int) {
    exists j, k | 0 <= j <= i < k <= |b| :: IsEscapeSequence(b[j..k])
  }

  lemma EscapedAtShift(b: string, d: nat, i: int)
    requires d <= |b| && EscapedAt(b[d..], i)
    ensures EscapedAt(b, i + d)
  {
    var j, k :| 0 <= j <= i < k <= |b| - d && IsEscapeSequence(b[d..][j..k]);
    assert b[d..][j..k] == b[j + d..k + d];
  }

  /** In a body, every character that cannot stand for itself belongs to an
      escape sequence. */
  lemma {:induction false} SpecialsEscaped(b: string, q: Quote)
    requires Body(b, q)
    ensures forall i | 0 <= i < |b| && !Plain(b[i], q) :: EscapedAt(b, i)
    decreases |b|
  {
    if b != [] {
      if Plain(b[0], q) && Body(b[1..], q) {
        SpecialsEscaped(b[1..], q);
        forall i | 0 <= i < |b| && !Plain(b[i], q) ensures EscapedAt(b, i) {
          assert b[1..][i - 1] == b[i];
          EscapedAtShift(b, 1, i - 1);
        }
      } else {
        var k :| 2 <= k <= |b| && IsEscapeSequence(b[..k]) && Body(b[k..], q);
        SpecialsEscaped(b[k..], q);
        forall i | 0 <= i < |b| && !Plain(b[i], q) ensures EscapedAt(b, i) {
          if i < k {
            assert b[0..k] == b[..k];
          } else {
            assert b[k..][i - k] == b[i];
            EscapedAtShift(b, k, i - k);
          }
        }
      }
    }
  }

  /** A position with no backslash at or before it is not inside an escape. */
  lemma NotEscapedAt(b: string, i: nat)
    requires i < |b| && forall j | 0 <= j <= i :: b[j] != '\\'
    ensures !EscapedAt(b, i)
  {
  }

  /** The number of backslashes directly before position i of b. */
  function RunBefore(b: string, i: nat): (n: nat)
    requires i <= |b|
    ensures n <= i
  {
    if i == 0 || b[i - 1] != '\\' then 0 else 1 + RunBefore(b, i - 1)
  }

  /** A run of backslashes that reaches back to the start of r continues
      into p. */
  lemma {:induction false} RunBeforeAppend(p: string, r: string, i: nat)
    requires i <= |r|
    ensures RunBefore(p + r, |p| + i)
      == if RunBefore(r, i) == i then i + RunBefore(p, |p|) else RunBefore(r, i)
  {
    if i > 0 {
      assert (p + r)[|p| + i - 1] == r[i - 1];
      if r[i - 1] == '\\' {
        RunBeforeAppend(p, r, i - 1);
      }
    } else {
      assert forall j | 0 <= j <= |p| :: RunBefore(p + r, j) == RunBefore(p, j) by {
        forall j | 0 <= j <= |p| ensures RunBefore(p + r, j) == RunBefore(p, j) {
          RunBeforePrefix(p, r, j);
        }
      }
    }
  }

  lemma {:induction false} RunBeforePrefix(p: string, r: string, j: nat)
    requires j <= |p|
    ensures RunBefore(p + r, j) == RunBefore(p, j)
  {
    if j > 0 {
      assert (p + r)[j - 1] == p[j - 1];
      RunBeforePrefix(p, r, j - 1);
    }
  }

  /** An escape sequence inside a string body ends in an even run of
      backslashes: only `\\` ends in a backslash at all. */
  lemma EscapeEndsEven(e: string)
    requires IsEscapeSequence(e)
    ensures RunBefore(e, |e|) % 2 == 0
    ensures forall i | 1 <= i < |e| :: e[i] == '"' || e[i] == '\n' || e[i] == '\\' ==> |e| == 2
  {
    var b := e[1..];
    assert forall i | 1 <= i < |e| :: e[i] == b[i - 1];
    if |e| == 2 && e[1] == '\\' {
      assert RunBefore(e, 2) == 1 + RunBefore(e, 1);
    } else if |e| > 2 {
      assert NumberLiteral.IsHex(e[|e| - 1]);
    }
  }

  /** Every `"` and newline of b follows an odd run of backslashes, and b
      does not end in an odd run. */
  predicate EvenRuns(b: string) {
    (forall i | 0 <= i < |b| && (b[i] == '"' || b[i] == '\n') :: RunBefore(b, i) % 2 == 1)
    && RunBefore(b, |b|) % 2 == 0
  }

  /** A plain character or an escape sequence in front of a body with even
      runs keeps them even. */
  lemma {:induction false} EvenRunsPrepend(e: string, r: string)
    requires (|e| == 1 && Plain(e[0], DoubleQuote)) || IsEscapeSequence(e)
    requires EvenRuns(r)
    ensures EvenRuns(e + r)
  {
    var b := e + r;
    if |e| == 1 && Plain(e[0], DoubleQuote) {
      assert RunBefore(e, 1) == 0;
    } else {
      EscapeEndsEven(e);
    }
    RunBeforeAppend(e, r, |r|);
    forall i | 0 <= i < |b| && (b[i] == '"' || b[i] == '\n') ensures RunBefore(b, i) % 2 == 1 {
      if i < |e| {
        assert e[i] == b[i];
        assert i == 1 && e[0] == '\\';
        assert RunBefore(b, 1) == 1 + RunBefore(b, 0);
      } else {
        assert r[i - |e|] == b[i];
        RunBeforeAppend(e, r, i - |e|);
      }
    }
  }

  /** In a string body the backslashes come in runs: a `"` or a newline
      stands right after an odd run of them, which is what makes it the
      escaped character of an escape sequence, and the body never ends in an
      odd run, whose last backslash would escape the closing quote. */
  lemma {:induction false} StringBodyEscapes(b: string)
    requires Body(b, DoubleQuote)
    ensures forall i | 0 <= i < |b| && (b[i] == '"' || b[i] == '\n') :: RunBefore(b, i) % 2 == 1
    ensures RunBefore(b, |b|) % 2 == 0
    decreases |b|
  {
    if b != [] {
      if Plain(b[0], DoubleQuote) && Body(b[1..], DoubleQuote) {
        StringBodyEscapes(b[1..]);
        assert b == b[..1] + b[1..];
        EvenRunsPrepend(b[..1], b[1..]);
      } else {
        var k :| 2 <= k <= |b| && IsEscapeSequence(b[..k]) && Body(b[k..], DoubleQuote);
        StringBodyEscapes(b[k..]);
        assert b == b[..k] + b[k..];
        EvenRunsPrepend(b[..k], b[k..]);
      }
    }
  }

  // ---------------------------------------------------------------------------
  // char_literal and string_literal.

  /** The length of the encoding prefix `L`, `u`, `U` or `u8` at the start of
      s, or 0. No prefix contains a quote, so the prefix in front of the
      opening quote is determined by s. */
  function PrefixLength(s: string): (n: nat)
    ensures n <= 2 && n <= |s|
    ensures n == 1 ==> s[0] == 'L' || s[0] == 'u' || s[0] == 'U'
    ensures n == 2 ==> s[0] == 'u' && s[1] == '8'
  {
    if |s| >= 2 && s[0] == 'u' && s[1] == '8' then 2
    else if |s| >= 1 && (s[0] == 'L' || s[0] == 'u' || s[0] == 'U') then 1
    else 0
  }

  /** An optional encoding prefix, an opening quote, and a closing quote at
      the end. */
  predicate Delimited(s: string, q: Quote) {
    PrefixLength(s) + 2 <= |s| && s[PrefixLength(s)] == QuoteChar(q) && s[|s| - 1] == QuoteChar(q)
  }

  /** The characters between the quotes. */
  function Inside(s: string, q: Quote): (b: string)
    requires Delimited(s, q)
    ensures |b| == |s| - PrefixLength(s) - 2
  {
    s[PrefixLength(s) + 1..|s| - 1]
  }

  /** seq(start, repeat1(choice(escape_sequence, /[^\n']/)), '\'') */
  predicate IsCharLiteral(s: string) {
    Delimited(s, SingleQuote) && Inside(s, SingleQuote) != [] && Body(Inside(s, SingleQuote), SingleQuote)
  }

  /** seq(start, repeat(choice(string_content, escape_sequence)), '"') */
  predicate IsStringLiteral(s: string) {
    Delimited(s, DoubleQuote) && Body(Inside(s, DoubleQuote), DoubleQuote)
  }

  /** In a string literal every `"` and newline between the quotes follows
      an odd run of backslashes, so it is the escaped character of an escape
      sequence, and every backslash run before the closing quote is even. */
  lemma StringSpecialsEscaped(s: string)
    requires IsStringLiteral(s)
    ensures var b := Inside(s, DoubleQuote);
      (forall i | 0 <= i < |b| && (b[i] == '"' || b[i] == '\n') :: RunBefore(b, i) % 2 == 1)
      && RunBefore(b, |b|) % 2 == 0
  {
    StringBodyEscapes(Inside(s, DoubleQuote));
  }

  /** In a character literal every `'` and newline between the quotes belongs
      to an escape sequence; a backslash may stand for itself. */
  lemma CharSpecialsEscaped(s: string)
    requires IsCharLiteral(s)
    ensures forall i | 0 <= i < |Inside(s, SingleQuote)| ::
      var c := Inside(s, SingleQuote)[i];
      c == '\'' || c == '\n' ==> EscapedAt(Inside(s, SingleQuote), i)
  {
    SpecialsEscaped(Inside(s, SingleQuote), SingleQuote);
  }

  lemma PlainThen(b: string, q: Quote)
    requires b != [] && Plain(b[0], q) && Body(b[1..], q)
    ensures Body(b, q)
  {
  }

  lemma EscapeThen(b: string, k: nat, q: Quote)
    requires 2 <= k <= |b| && IsEscapeSequence(b[..k]) && Body(b[k..], q)
    ensures Body(b, q)
  {
  }

  /** `u8"a\"b"` is a string literal: the inner quote is escaped. */
  lemma EscapedQuoteAccepted()
    ensures IsStringLiteral("u8\"a\\\"b\"")
  {
    var s := "u8\"a\\\"b\"";
    var b := Inside(s, DoubleQuote);
    assert b == "a\\\"b";
    PlainThen(b[3..], DoubleQuote);
    assert b[1..][..2] == "\\\"" && b[1..][2..] == b[3..];
    EscapeThen(b[1..], 2, DoubleQuote);
    PlainThen(b, DoubleQuote);
  }

  /** `"a"b"` is not a string literal: its second quote is not escaped. */
  lemma UnescapedQuoteRejected()
    ensures !IsStringLiteral("\"a\"b\"")
  {
    var s := "\"a\"b\"";
    assert Inside(s, DoubleQuote) == "a\"b";
    assert RunBefore("a\"b", 1) == 0;
    if IsStringLiteral(s) {
      StringSpecialsEscaped(s);
    }
  }

  /** `"\\""` is not a string literal: the first backslash escapes the
      second, so the quote after them is not escaped. */
  lemma EscapedBackslashThenQuoteRejected()
    ensures !IsStringLiteral("\"\\\\\"\"")
  {
    var s := "\"\\\\\"\"";
    var b := Inside(s, DoubleQuote);
    assert b == "\\\\\"";
    assert RunBefore(b, 2) == 2 by {
      assert RunBefore(b, 0) == 0;
      assert RunBefore(b, 1) == 1;
    }
    assert b[2] == '"';
    if IsStringLiteral(s) {
      StringSpecialsEscaped(s);
    }
  }

  /** `L'ab'` is a character literal (a multi-character constant), and `''`
      is not: a character literal holds at least one character. */
  lemma CharLiteralExamples()
    ensures IsCharLiteral("L'ab'") && !IsCharLiteral("''")
  {
    var b := Inside("L'ab'", SingleQuote);
    assert b == "ab";
    PlainThen(b[1..], SingleQuote);
    PlainThen(b, SingleQuote);
  }

  // ---------------------------------------------------------------------------
  // system_lib_string

  /** repeat(choice(/[^>\n]/, '\\>')) */
  predicate LibBody(b: string)
    decreases |b|
  {
    b == []
    || (b[0] != '>' && b[0] != '\n' && LibBody(b[1..]))
    || (|b| >= 2 && b[0] == '\\' && b[1] == '>' && LibBody(b[2..]))
  }

  /** seq('<', body, '>') */
  predicate IsSystemLibString(s: string) {
    |s| >= 2 && s[0] == '<' && s[|s| - 1] == '>' && LibBody(s[1..|s| - 1])
  }

  /** No newline, and every `>` directly after a backslash. */
  predicate LibChars(b: string) {
    forall i {:trigger b[i]} | 0 <= i < |b| :: b[i] != '\n' && (b[i] == '>' ==> i > 0 && b[i - 1] == '\\')
  }

  lemma LibCharAt(b: string, i: nat)
    requires LibChars(b) && i < |b|
    ensures b[i] != '\n' && (b[i] == '>' ==> i > 0 && b[i - 1] == '\\')
  {
  }

  /** The body of a system header name is exactly a line without newlines in
      which every `>` is escaped by a backslash. */
  lemma {:induction false} LibBodyChars(b: string)
    ensures LibBody(b) <==> LibChars(b)
    decreases |b|
  {
    if b != [] {
      if |b| >= 2 && b[0] == '\\' && b[1] == '>' {
        LibBodyChars(b[2..]);
        if LibChars(b) {
          forall i | 0 <= i < |b| - 2 ensures b[2..][i] != '\n' && (b[2..][i] == '>' ==> i > 0 && b[2..][i - 1] == '\\') {
            assert b[2..][i] == b[i + 2];
          }
        }
        if LibBody(b[2..]) {
          assert LibChars(b) by {
            forall i | 2 <= i < |b| ensures b[i] != '\n' && (b[i] == '>' ==> b[i - 1] == '\\') {
              assert b[2..][i - 2] == b[i];
              if b[i] == '>' { assert b[2..][i - 3] == b[i - 1]; }
            }
          }
        }
      } else {
        LibBodyChars(b[1..]);
        if LibChars(b) {
          LibCharAt(b, 0);
          if |b| >= 2 {
            LibCharAt(b, 1);
          }
          forall i | 0 <= i < |b| - 1 ensures b[1..][i] != '\n' && (b[1..][i] == '>' ==> i > 0 && b[1..][i - 1] == '\\') {
            assert b[1..][i] == b[i + 1];
          }
        }
        if LibBody(b[1..]) && b[0] != '>' && b[0] != '\n' {
          assert LibChars(b) by {
            forall i | 1 <= i < |b| ensures b[i] != '\n' && (b[i] == '>' ==> b[i - 1] == '\\') {
              assert b[1..][i - 1] == b[i];
              if b[i] == '>' { assert b[1..][i - 2] == b[i - 1]; }
            }
          }
        }
      }
    }
  }
}
