# tree-sitter-c grammar core, modelled in Dafny

This project models the core of the tree-sitter grammar for C (`grammar.js`).
It covers the parts of that grammar that have a meaning on token and character
sequences, and proves what that meaning implies.

- **Expression precedence and associativity.** The `PREC` table gives levels
  to the binary, unary, pointer, update, cast, sizeof, assignment,
  conditional, call, subscript and field rules, each declared with
  `prec`, `prec.left` or `prec.right`. `Expressions.Resolved` picks, among
  the trees with the same tokens, the one these declarations give. Where an
  operator could either close the node before it or extend that node's last
  operand, the higher level wins. On a tie, a `prec.left` node is closed and
  a `prec.right` node is extended. `ExprParser.Parse` is a precedence-climbing
  recognizer. It is proved to return exactly the resolved tree whose tokens
  it is given, so every token sequence has at most one resolved tree.
  Groupings worth noting:
  - `-x++` groups as `(-x)++`, because `unary_expression` is `prec.left` at
    the level of `update_expression`;
  - `*p++` groups as `*(p++)`, because `pointer_expression` sits at the
    cast level;
  - `x + y = z` groups as `x + (y = z)`, and `-x = y` as `-(x = y)`. The
    allowed assignment targets are inlined into `assignment_expression`, so
    no rule lets `=` follow a finished operand, and `=` after a target is
    taken whatever the level of the nodes still open. The one exception is
    inside the operand of `*` or `&`: a pointer expression may itself be a
    target, so there `=` closes the operand first, and `*x = y` is
    `(*x) = y`;
  - `sizeof (T) x` groups as `sizeof ((T) x)`: a name, a literal, `!`, `~`
    or `sizeof` cannot continue an expression, so after `sizeof ( T )`
    nothing is closed and the token starts the operand of a cast. Before a
    token that can continue an expression (`- + * & ++ -- (`), SIZEOF
    outranks CAST, so `sizeof (T) - x` is `sizeof (T)` minus x.
- **Preprocessor expressions.** The restricted expression language of
  `#if`/`#elif` lines has its own parser, with the same soundness and
  round-trip theorems. Its operator table is proved identical to the main
  one.
- **Lexical tokens.** Recognizers follow the regular expressions:
  - `number_literal`, faithful to its quirks: `0x0x1F` is accepted, and
    binary literals take any decimal digit;
  - `escape_sequence`;
  - the bodies of `char_literal` and `string_literal`;
  - `system_lib_string`;
  - both forms of `comment`.

  Lemmas characterise each language in plain terms: where digit separators
  may stand, which characters must be escaped, where a block comment ends,
  and when a newline may occur in a line comment.
- **Lists and conditionals.**
  - `commaSep`/`commaSep1` and the body of `enumerator_list` are recognizers
    over item/separator sequences.
  - The `preprocIf` rule family is a datatype of conditional chains,
    parameterised by its content. Its recognizer works over directive lines
    (cf. section 6.10.1 of ISO/IEC 9899:2018). It is proved sound and
    complete, and proved to keep `#endif` lines balanced.

## Model

| member | source | states |
|---|---|---|
| Precedence.BinaryPrec | grammar.js:11-33 | every binary operator's level lies between LOGICAL_OR (1) and MULTIPLY (11) |
| Precedence.BinaryTableDefinesPrec | grammar.js:1044-1074 | the binary_expression table gives each of the eighteen operators exactly one level, the one BinaryPrec assigns from PREC |
| Precedence.PreprocTableMatchesBinaryTable | grammar.js:216-246 | the preprocessor binary table assigns every operator the same level as the main table |
| Precedence.BinaryPrecFollowsC17 | grammar.js:11-33 | one operator binds tighter than another iff section 6.5 of ISO/IEC 9899:2018 defines it in an earlier subclause, and equally iff in the same subclause |
| Precedence.BinaryLexemesDistinct | grammar.js:1045-1064 | no two binary operators share a lexeme |
| Tokens.PrefixPunctsRecognised | grammar.js:1034-1042 | the token of each prefix operator (unary, pointer, update) is read back as that operator and as no other prefix kind |
| Expressions.ThresholdDecides | grammar.js:999-1136 | every conflict between a complete right-open node and a following left-open rule is settled one way only, and the operator is shifted exactly when its level reaches the node's threshold |
| Expressions.TailRule | grammar.js:999-1136 | a token that continues a complete expression always starts a rule that begins with an expression |
| ExprParser.ParseSound | grammar.js:999-1136 | whatever Parse accepts is a resolved tree whose tokens are exactly the input |
| ExprRoundTrip.ParsePrintRoundTrip | grammar.js:999-1136 | every resolved tree is recovered by parsing its own tokens |
| ExprRoundTrip.ParseExactlyInvertsPrint | grammar.js:999-1136 | Parse returns e on ts iff e is resolved and prints as ts |
| ExprRoundTrip.ResolvedTreesUnambiguous | grammar.js:11-33 | two resolved trees with the same tokens are equal: the declared precedences leave no expression ambiguous |
| ExprRoundTrip.CastInverse | grammar.js:1085-1090 | a resolved cast `( T ) e` is read back as that cast |
| ExprRoundTrip.SizeofInverse | grammar.js:1085-1105 | a resolved `sizeof e`, including `sizeof (T) x` over a cast, is read back as that sizeof expression |
| ExprRoundTrip.ConditionalInverse | grammar.js:999-1005 | the part of a conditional after `?`, with or without a consequence, is read back |
| ExprRoundTrip.InfixInverse | grammar.js:1016-1074 | a resolved binary or assignment node is rebuilt from its left operand and the tokens after it |
| ExprRoundTrip.SubscriptInverse | grammar.js:1126-1131 | a resolved subscript is rebuilt from its array operand and `[ index ]` |
| ExprRoundTrip.CallInverse | grammar.js:1133-1136 | a resolved call is rebuilt from its callee and its argument list |
| ExprRoundTrip.ArgListInverse | grammar.js:1210 | a non-empty comma-separated argument list followed by `)` is read back argument for argument |
| ExprParser.FieldBuilt | grammar.js:1212-1218 | after an expression, `. m` or `-> m` builds the field node over it, consuming exactly those two tokens, and the node is resolved whenever its operand is |
| ExprRoundTrip.ClosedInverse | grammar.js:1076-1083 | a postfix update or field access is rebuilt from its operand and the tokens after it |
| ExprRoundTrip.ArgsInverse | grammar.js:1210 | the argument list of a call, empty or not, followed by `)` is read back argument for argument |
| ExprRoundTrip.ParseExprInverse | grammar.js:999-1136 | a resolved expression at or above a level, followed by tokens that close it at that level, is read back with those tokens left over |
| ExprExamples.BinaryOperandsBind | grammar.js:1007-1074 | in a resolved binary node a binary left operand binds at least as tightly, a binary right operand strictly more tightly, neither operand is a bare conditional, the left one is no assignment, and a right operand that is an assignment has an allowed target whose operators all bind more tightly than the binary one |
| ExprExamples.AssignmentOperands | grammar.js:1007-1032 | the left operand of a resolved assignment is an identifier, call, field, pointer, subscript or parenthesized expression |
| ExprExamples.ParsedOperandsBind | grammar.js:999-1074 | every tree Parse returns obeys the two operand rules above |
| ExprExamples.TwoBinaryOperators | grammar.js:1044-1074 | `x o1 y o2 z` groups as `(x o1 y) o2 z` iff o1's level is at least o2's, and as `x o1 (y o2 z)` otherwise |
| ExprExamples.BinaryExamples | grammar.js:1044-1074 | `a + b * c` is `a + (b * c)`, `a < b == c` is `(a < b) == c`, `a - b - c` is `(a - b) - c` |
| ExprExamples.AssignmentChainsRight | grammar.js:1016-1032 | `x = y = z` parses as `x = (y = z)` for any assignment operators |
| ExprExamples.PrefixBeforePostfix | grammar.js:1039-1083 | `-x++` parses as `(-x)++`, for every unary and update operator |
| ExprExamples.PostfixBeforeDereference | grammar.js:1034-1083 | `*p++` parses as `*(p++)`, for both pointer and both update operators |
| ExprExamples.AssignmentAfterBinary | grammar.js:1007-1074 | `x o y = z` is `x o (y = z)` for every binary operator o, and `(x o y) = z` is not a resolved tree |
| ExprExamples.AssignmentUnderPrefix | grammar.js:1007-1042 | `-x = y` is `-(x = y)`, for every unary operator |
| ExprExamples.PointerIsTarget | grammar.js:1007-1037 | `*x = y` is `(*x) = y`, and `*(x = y)` is not a resolved tree |
| ExprExamples.PointerChainIsTarget | grammar.js:1007-1042 | `*-x = y` is `(*-x) = y`: the whole prefix chain under the pointer is closed before `=` |
| ExprExamples.PointerTargetUnderPrefix | grammar.js:1007-1042 | `-*x = y` is `-((*x) = y)` |
| ExprExamples.AssignmentInAlternative | grammar.js:999-1032 | `c ? m : x = y` is `c ? m : (x = y)` |
| ExprExamples.SizeofOfCast | grammar.js:1085-1105 | `sizeof (T) x` is `sizeof ((T) x)` |
| ExprExamples.SizeofTypeMinus | grammar.js:1085-1105 | `sizeof (T) - x` is `sizeof (T)` minus x, and the cast reading is not a resolved tree |
| PreprocExpr.ParseSound | grammar.js:178-246 | whatever the preprocessor-expression parser accepts is a resolved tree whose tokens are the input |
| PreprocExpr.ParsePrintRoundTrip | grammar.js:178-246 | every resolved preprocessor expression is recovered by parsing its tokens |
| PreprocExpr.ParseExactlyInvertsPrint | grammar.js:178-246 | the parser returns e on ts iff e is resolved and prints as ts |
| NumberLiteral.DigitsAreSeparated | grammar.js:1268-1272 | a digit run with separators (digits, then groups of `'` and digits) is exactly a non-empty string in which every `'` has a digit on both sides |
| NumberLiteral.SeparatorsBetweenDigits | grammar.js:1267-1296 | in every number literal each `'` has a (hexadecimal) digit on both sides: never first, last or doubled |
| NumberLiteral.LeadingDotHasDigit | grammar.js:1285 | a number literal that starts with `.` has a decimal digit right after it |
| NumberLiteral.NumberLiteralAlphabet | grammar.js:1267-1296 | a number literal uses only signs, hex digits, `x`/`X`, `.`, `'`, `eEpP` and the suffix letters `uUlLwWfFbBdD` |
| NumberLiteral.DoubledHexPrefixAccepted | grammar.js:1275-1281 | `0x0x1F` is a number literal: the optional prefix and the hex alternative's own prefix both apply |
| NumberLiteral.BinaryTakesDecimalDigits | grammar.js:1280 | `0b19` is a number literal: binary literals take decimal digits |
| NumberLiteral.DoubledSeparatorRejected | grammar.js:1271-1272 | `1''0` is not a number literal |
| NumberLiteral.EdgeSeparatorRejected | grammar.js:1271-1272 | `'1` and `1'` are not number literals |
| NumberLiteral.LoneDotRejected | grammar.js:1276-1286 | `.` alone is not a number literal |
| Literals.EscapeShape | grammar.js:1327-1336 | an escape sequence starts with a backslash, is 2 to 10 characters long, and matches exactly one of the five forms |
| Literals.StringBodyEscapes | grammar.js:1318-1336 | in a string body every `"` and newline comes right after an odd run of backslashes, so it is the escaped character of an escape sequence, and the body never ends in an odd run |
| Literals.StringSpecialsEscaped | grammar.js:1318-1325 | the same for the characters between the quotes of a whole string literal |
| Literals.EscapedBackslashThenQuoteRejected | grammar.js:1318-1336 | `"\\""` is not a string literal: the quote after an escaped backslash is not escaped |
| Literals.CharSpecialsEscaped | grammar.js:1298-1305 | inside a char literal every `'` and newline belongs to an escape sequence (a lone backslash may stand for itself) |
| Literals.PrefixLength | grammar.js:1299 | the encoding prefix of a literal is empty, one of `L u U`, or `u8` |
| Literals.EscapedQuoteAccepted | grammar.js:1318-1336 | `u8"a\"b"` is a string literal |
| Literals.UnescapedQuoteRejected | grammar.js:1318-1325 | `"a"b"` is not a string literal |
| Literals.CharLiteralExamples | grammar.js:1298-1305 | `L'ab'` is a char literal and `''` is not: the body needs at least one character |
| Literals.LibBodyChars | grammar.js:1338-1342 | a system_lib_string body is exactly a string with no newline in which every `>` follows a backslash |
| Comments.LineBodySpliced | grammar.js:1372 | in a line comment body a newline occurs only directly after a backslash, or after a backslash and a carriage return |
| Comments.LineCommentSpliced | grammar.js:1372 | a whole line comment contains a raw newline only right after a backslash (possibly with a carriage return between) |
| Comments.BlockBodyIsClosed | grammar.js:1375 | the block-comment body regex accepts exactly the strings that end in `*`, followed by the final `/`, with no earlier `*/` |
| Comments.BlockCommentEndsAtFirstCloser | grammar.js:1373-1377 | a block comment is `/*`, then text with no `*/` before the end, then `*/` |
| Comments.BlockCommentExamples | grammar.js:1373-1377 | `/**/` is a block comment; `/* a */ b */` is not |
| Comments.SplicedLineAccepted | grammar.js:1372 | a line comment may continue after a backslash-newline |
| Comments.UnsplicedNewlineRejected | grammar.js:1372 | a line comment cannot contain a plain newline |
| PreprocIf.PrintCond | grammar.js:1408-1423 | the lines of a conditional start with `#if`/`#ifdef`/`#ifndef` and end with `#endif` |
| PreprocIf.PrintAlt | grammar.js:1399-1405 | an alternative's lines start with `#else`, `#elif` or `#elifdef`/`#elifndef` |
| PreprocIf.CondSound | grammar.js:1408-1423 | what the recognizer accepts is a well-formed conditional (every alternative has the suffix of the opening rule; nesting only where the content allows it) whose lines are exactly the lines consumed |
| PreprocIf.BodySound | grammar.js:1412 | repeat(content) accepts only well-formed content and consumes exactly its lines |
| PreprocIf.AltSound | grammar.js:1425-1443 | an accepted `#else`/`#elif`/`#elifdef` chain is well formed and consumes exactly its lines |
| PreprocIf.CondInverse | grammar.js:1408-1423 | every well-formed conditional is recognized from its own lines, whatever follows |
| PreprocIf.BodyInverse | grammar.js:1412 | repeat(content) reads back any well-formed content up to a line it cannot take |
| PreprocIf.AltInverse | grammar.js:1399-1405 | every well-formed alternative chain is read back up to the closing `#endif` |
| PreprocIf.CondEncloses | grammar.js:1408-1423 | a conditional's lines open as many conditionals as they close, and every non-empty proper prefix is still open, so its last `#endif` matches its first line |
| PreprocIf.AltNeverBelowZero | grammar.js:1425-1443 | an alternative chain opens and closes as many conditionals as it contains and never closes one it did not open |
| PreprocIf.AlternativeBalanced | grammar.js:1425-1443 | an alternative consumes no `#endif` of its own |
| PreprocIf.ParsedConditionalEncloses | grammar.js:1408-1423 | the lines the recognizer consumes form one enclosed unit, closed by the `#endif` matching the opening |
| PreprocIf.ElseOnlyLast | grammar.js:1425-1428 | a conditional's directive chain starts with the opening, ends with `#endif`, has only `#elif`/`#elifdef` lines in between, and holds at most one `#else`, which is the last alternative |
| PreprocIf.IfElseAccepted | grammar.js:1408-1428 | `#if X`, item, `#else`, item, `#endif` is recognized as one conditional with an `#else` alternative |
| PreprocIf.ElifAfterElseRejected | grammar.js:1425-1428 | an `#elif` after `#else` is rejected |
| PreprocIf.NestingDependsOnInstance | grammar.js:170-173 | a nested `#if` is accepted among block items and rejected in an enumerator list |
| Lists.CommaSep1Shape | grammar.js:1476-1478 | commaSep1 accepts exactly the odd-length sequences alternating item, comma, item, which start and end with an item |
| Lists.CommaSep1Count | grammar.js:1476-1478 | a list of k items carries exactly k - 1 commas |
| Lists.CommaSepShape | grammar.js:1465-1467 | commaSep accepts exactly the empty sequence and the odd-length alternations of item and comma; a non-empty accepted list has one comma fewer than items and no trailing comma |
| Lists.Joined | grammar.js:1476-1478 | joining k items gives 2k - 1 tokens |
| Lists.JoinedAccepted | grammar.js:1476-1478 | joining items with commas gives an accepted list with those items and k - 1 commas |
| Lists.AcceptedIsJoined | grammar.js:1476-1478 | every accepted list is the joining of its own items |
| Lists.EnumeratorBodyShape | grammar.js:683-700 | an enumerator list body is exactly a sequence where commas come only after an enumerator or call, every enumerator or call except the last is followed by a comma, and a conditional without commas may come only last |
| Lists.EnumeratorExamples | grammar.js:683-700 | `A, B` and `A, B,` are enumerator list bodies; `A B` and `, A` are not |

## Left out

- Declarations, declarators, statements, types and their conflicts
  (`conflicts`, `prec.dynamic`): their parse depends on the runtime's
  ambiguity resolution. A type descriptor is one opaque `TypeName` token
  here.
- The GLR runtime, lexer modes and error recovery: the model gives the
  meaning of the rules, not the parse tables.
- `identifier` (Unicode XID classes), keyword lists, `preproc_arg` and
  `preproc_directive`: identifiers and directive bodies are opaque strings.
- `comma_expression`, compound literals, `alignof`, `offsetof`, `_Generic`,
  GNU `asm`, `__extension__`, concatenated strings, `true`/`false`/`null`,
  and `compound_statement` arguments: these are outside the expression
  core modelled here.
- Numeric values of number literals: the pattern computes none.
- Longest-match tokenization: each recognizer gives the language of one
  token's regular expression, not how the lexer splits input. For example,
  `'\'` is in the char_literal language, and `<a\>` in the
  system_lib_string language.
- `extras` between the tokens of char and string literals: the model reads
  a literal as one token, so a comment or line break between its parts is
  not modelled.
- In the comment regex, `.` is taken as any character except a newline.
- Preprocessor directive spelling: `#`, spaces and the directive word are
  abstracted into directive lines. The braces of `enumerator_list` are not
  part of its token sequence.
- Inside a conditional of the `_in_enumerator_list` instance, the abstract
  content item stands for an enumerator together with its comma.
- The precedence of each preprocIf instance (0, or -1 for
  `_in_enumerator_list_no_comma`) is recorded by SuffixPrecedence but plays
  no role: the model has no conflicts for it to settle.
- Precedence.BinaryPrec: states only the range of levels; their exact
  values are stated by BinaryTableDefinesPrec.
