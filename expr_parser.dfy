/** A precedence-climbing parser for the expression rules: at each point it
    makes the choice the declared `prec` levels make in the generated LR table. */
module ExprParser {
  import opened Wrappers
  import opened Precedence
  import opened Tokens
  import opened Expressions
  import opened SeqFacts

  datatype Parsed = Parsed(expr: Expr, rest: seq<Token>)
  datatype ParsedArgs = ParsedArgs(args: seq<Expr>, rest: seq<Token>)

  /** The level an unrestricted `expression` is parsed at: every operator. */
  const Top: int := ASSIGNMENT

  /** Every left-open rule binds at least as tightly as assignment, so any
      expression may stand where `expression` is expected. */
  lemma {:induction false} AnyExprAtTop(e: Expr)
    ensures LeftEdgeAtLeast(e, Top)
    decreases e
  {
    if LeftOpen(e) {
      AnyExprAtTop(LeftChild(e));
    }
  }

  // ---------------------------------------------------------------------------
  // What each parsing function promises about a successful result. The flag
  // inPointer says that the expression being parsed stands in the chain of
  // prefix operators that a pointer operand starts with.

  /** A parse of ts at level t: the tokens read are those of the tree, the tree
      is resolved and fits level t, and the parse stopped only because the next
      token does not continue the tree at level t. */
  predicate ParsedAt(ts: seq<Token>, t: int, inPointer: bool, p: Parsed) {
    Print(p.expr) + p.rest == ts && |p.rest| < |ts|
    && Resolved(p.expr) && Fits(p.expr, t, inPointer) && (inPointer ==> ChainFree(p.expr))
    && Follows(p.expr, p.rest, inPointer) && Stops(p.expr, p.rest, t, inPointer)
  }

  /** A parse of an expression that does not start with an expression. */
  predicate PrefixOk(ts: seq<Token>, inPointer: bool, p: Parsed) {
    Print(p.expr) + p.rest == ts && |p.rest| < |ts|
    && !LeftOpen(p.expr) && Resolved(p.expr) && Follows(p.expr, p.rest, inPointer)
    && (inPointer ==> ChainFree(p.expr))
  }

  /** One left-open rule applied to lhs, chosen by the first token of ts. */
  predicate StepOk(lhs: Expr, ts: seq<Token>, p: Parsed) {
    ts != [] && Print(lhs) + ts == Print(p.expr) + p.rest && |p.rest| < |ts|
    && LeftOpen(p.expr) && LeftChild(p.expr) == lhs
    && TailRule(ts[0]) == Some(RuleOf(p.expr))
    && (Resolved(lhs) && RightEdgeBelow(lhs, RulePrec(RuleOf(p.expr)))
        ==> Resolved(p.expr) && Follows(p.expr, p.rest, false))
  }

  /** Any number of left-open rules at level t or tighter, or assignments the
      table shifts, applied to lhs. */
  predicate TailOk(lhs: Expr, ts: seq<Token>, t: int, inPointer: bool, p: Parsed) {
    Print(lhs) + ts == Print(p.expr) + p.rest && |p.rest| <= |ts| && Stops(p.expr, p.rest, t, inPointer)
    && (Resolved(lhs) && Follows(lhs, ts, inPointer) && Fits(lhs, t, inPointer) && (inPointer ==> ChainFree(lhs))
        ==> Resolved(p.expr) && Follows(p.expr, p.rest, inPointer) && Fits(p.expr, t, inPointer)
            && (inPointer ==> ChainFree(p.expr)))
  }

  /** The rest of a conditional whose tokens so far are `lead`. */
  predicate ConditionalOk(cond: Expr, lead: seq<Token>, ts: seq<Token>, p: Parsed) {
    Print(cond) + lead + ts == Print(p.expr) + p.rest && |p.rest| < |ts|
    && p.expr.Conditional? && p.expr.condition == cond
    && (Resolved(cond) && RightEdgeBelow(cond, CONDITIONAL) ==> Resolved(p.expr) && Follows(p.expr, p.rest, false))
  }

  /** The body of an argument_list and its closing parenthesis. */
  predicate ArgsOk(ts: seq<Token>, p: ParsedArgs) {
    PrintArgs(p.args) + [Sym(RParen)] + p.rest == ts
    && forall i | 0 <= i < |p.args| :: Resolved(p.args[i])
  }

  // ---------------------------------------------------------------------------
  // The parser. Each function promises here only that it consumes input; what
  // a successful parse means is proved about it below.

  /** An `expression` whose operators bind at level t or tighter. */
  function ParseExpr(ts: seq<Token>, t: int, inPointer: bool): (r: Result<Parsed>)
    ensures r.Ok? ==> |r.value.rest| < |ts|
    decreases |ts|, 3
  {
    match ParsePrefix(ts, inPointer)
    case Fail(n) => Fail(n)
    case Ok(h) => ParseTail(h.expr, h.rest, t, inPointer)
  }

  /** A primary, a parenthesized expression, or a prefix operator, cast or
      sizeof with its operand. */
  function ParsePrefix(ts: seq<Token>, inPointer: bool): (r: Result<Parsed>)
    ensures r.Ok? ==> |r.value.rest| < |ts|
    decreases |ts|, 2
  {
    if ts == [] then Fail(0)
    else match ts[0]
      case Ident(n) => Ok(Parsed(Identifier(n), ts[1..]))
      case Lit(k, s) => Ok(Parsed(Literal(k, s), ts[1..]))
      case SizeofKw => ParseSizeof(ts, inPointer)
      case Sym(p) =>
        if p == LParen then ParseParenOrCast(ts, inPointer)
        else if UnaryOf(p).Some? || PointerOf(p).Some? || UpdateOf(p).Some? then ParseOperand(ts, inPointer)
        else Fail(|ts|)
      case _ => Fail(|ts|)
  }

  /** The rule a prefix operator token starts. */
  function PrefixRule(p: Punct): Rule {
    if UnaryOf(p).Some? then UnaryRule else if PointerOf(p).Some? then PointerRule else UpdateRule
  }

  /** A prefix operator and its operand, which takes every operator the table
      shifts past the prefix rule; a pointer operator starts a pointer
      operand's chain. */
  function ParseOperand(ts: seq<Token>, inPointer: bool): (r: Result<Parsed>)
    requires ts != [] && ts[0].Sym?
    requires UnaryOf(ts[0].p).Some? || PointerOf(ts[0].p).Some? || UpdateOf(ts[0].p).Some?
    ensures r.Ok? ==> |r.value.rest| < |ts|
    decreases |ts|, 0
  {
    var p := ts[0].p;
    match ParseExpr(ts[1..], Threshold(PrefixRule(p)), inPointer || PointerOf(p).Some?)
    case Fail(n) => Fail(n)
    case Ok(a) =>
      var e :=
        if UnaryOf(p).Some? then Unary(UnaryOf(p).value, a.expr)
        else if PointerOf(p).Some? then Pointer(PointerOf(p).value, a.expr)
        else PrefixUpdate(UpdateOf(p).value, a.expr);
      Ok(Parsed(e, a.rest))
  }

  /** `sizeof ( T )` is the type form unless the token after `)` can start
      an expression but not continue one: then the table has nothing to
      reduce and shifts that token into the operand of a cast `( T )`, so
      `sizeof (T) x` is `sizeof ((T) x)`. Otherwise `sizeof` takes an
      operand, which is a cast only in that case. */
  function ParseSizeof(ts: seq<Token>, inPointer: bool): (r: Result<Parsed>)
    requires ts != [] && ts[0] == SizeofKw
    ensures r.Ok? ==> |r.value.rest| < |ts|
    decreases |ts|, 0
  {
    if |ts| >= 4 && ts[1] == Sym(LParen) && ts[2].TypeName? && ts[3] == Sym(RParen) && !OpensOnly(ts[4..]) then
      Ok(Parsed(SizeofType(ts[2].name), ts[4..]))
    else
      match ParseExpr(ts[1..], Threshold(SizeofRule), inPointer)
      case Fail(n) => Fail(n)
      case Ok(a) =>
        if a.expr.Cast? && !(|ts| >= 4 && OpensOnly(ts[4..])) then Fail(|ts| - 1)
        else Ok(Parsed(SizeofExpr(a.expr), a.rest))
  }

  /** `( T )` followed by an operand is a cast; otherwise the parenthesis
      opens a parenthesized expression. */
  function ParseParenOrCast(ts: seq<Token>, inPointer: bool): (r: Result<Parsed>)
    requires ts != [] && ts[0] == Sym(LParen)
    ensures r.Ok? ==> |r.value.rest| < |ts|
    decreases |ts|, 0
  {
    if |ts| >= 2 && ts[1].TypeName? then
      if |ts| >= 3 && ts[2] == Sym(RParen) then
        match ParseExpr(ts[3..], Threshold(CastRule), inPointer)
        case Fail(n) => Fail(n)
        case Ok(a) => Ok(Parsed(Cast(ts[1].name, a.expr), a.rest))
      else Fail(|ts| - 2)
    else
      match ParseExpr(ts[1..], Top, false)
      case Fail(n) => Fail(n)
      case Ok(a) =>
        if a.rest != [] && a.rest[0] == Sym(RParen) then Ok(Parsed(Parenthesized(a.expr), a.rest[1..]))
        else Fail(|a.rest|)
  }

  /** Extends lhs with every operator of level t or tighter that follows it,
      each one taking the tree built so far as its left operand, and with an
      assignment operator the table shifts after a target. A token that can
      only start an expression cannot follow one. */
  function ParseTail(lhs: Expr, ts: seq<Token>, t: int, inPointer: bool): (r: Result<Parsed>)
    ensures r.Ok? ==> |r.value.rest| <= |ts|
    decreases |ts|, 2
  {
    match NextPrec(ts)
    case Some(p) =>
      if p < t && !ShiftsAssignment(lhs, ts, inPointer) then Ok(Parsed(lhs, ts))
      else
        (match ParseStep(lhs, ts)
         case Fail(n) => Fail(n)
         case Ok(s) => ParseTail(s.expr, s.rest, t, inPointer))
    case None => if OpensOnly(ts) then Fail(|ts|) else Ok(Parsed(lhs, ts))
  }

  /** One left-open rule, chosen by the token after lhs, with lhs as its
      left operand. */
  function ParseStep(lhs: Expr, ts: seq<Token>): (r: Result<Parsed>)
    requires NextPrec(ts).Some?
    ensures r.Ok? ==> |r.value.rest| < |ts|
    decreases |ts|, 1
  {
    match TailRule(ts[0]).value
    case BinaryRule(_) => ParseInfix(lhs, ts)
    case AssignmentRule => if AssignableTarget(lhs) then ParseInfix(lhs, ts) else Fail(|ts|)
    case ConditionalRule => ParseConditionalRest(lhs, ts[1..])
    case UpdateRule => Ok(Parsed(PostfixUpdate(UpdateOf(ts[0].p).value, lhs), ts[1..]))
    case CallRule =>
      (match ParseArgs(ts[1..])
       case Fail(n) => Fail(n)
       case Ok(a) => Ok(Parsed(Call(lhs, a.args), a.rest)))
    case SubscriptRule => ParseSubscript(lhs, ts)
    case FieldRule =>
      if |ts| >= 2 && ts[1].Ident? then
        Ok(Parsed(Field(lhs, if ts[0] == Sym(DotPunct) then Dot else Arrow, ts[1].name), ts[2..]))
      else Fail(|ts| - 1)
  }

  /** A binary operator or an assignment operator and its right operand. */
  function ParseInfix(lhs: Expr, ts: seq<Token>): (r: Result<Parsed>)
    requires ts != [] && TailRule(ts[0]).Some?
    ensures r.Ok? ==> |r.value.rest| < |ts|
    decreases |ts|, 0
  {
    match ParseExpr(ts[1..], Threshold(TailRule(ts[0]).value), false)
    case Fail(n) => Fail(n)
    case Ok(b) =>
      if ts[0].Sym? && ts[0].p.BinaryPunct? then Ok(Parsed(Binary(ts[0].p.op, lhs, b.expr), b.rest))
      else if ts[0].Sym? && ts[0].p.AssignPunct? then Ok(Parsed(Assignment(ts[0].p.aop, lhs, b.expr), b.rest))
      else Fail(|ts|)
  }

  /** `[`, the index expression and `]`. */
  function ParseSubscript(lhs: Expr, ts: seq<Token>): (r: Result<Parsed>)
    requires ts != []
    ensures r.Ok? ==> |r.value.rest| < |ts|
    decreases |ts|, 0
  {
    match ParseExpr(ts[1..], Top, false)
    case Fail(n) => Fail(n)
    case Ok(b) =>
      if b.rest != [] && b.rest[0] == Sym(RBracket) then Ok(Parsed(Subscript(lhs, b.expr), b.rest[1..]))
      else Fail(|b.rest|)
  }

  /** The part of a conditional_expression after `?`: an optional consequence
      (any expression), then `:` and the alternative. */
  function ParseConditionalRest(cond: Expr, ts: seq<Token>): (r: Result<Parsed>)
    ensures r.Ok? ==> |r.value.rest| < |ts|
    decreases |ts|, 4
  {
    if ts != [] && ts[0] == Sym(Colon) then ParseAlternative(cond, None, ts)
    else
      match ParseExpr(ts, Top, false)
      case Fail(n) => Fail(n)
      case Ok(m) =>
        if m.rest != [] && m.rest[0] == Sym(Colon) then ParseAlternative(cond, Some(m.expr), m.rest)
        else Fail(|m.rest|)
  }

  /** `:` and the alternative of a conditional, which is right-associative. */
  function ParseAlternative(cond: Expr, m: Option<Expr>, ts: seq<Token>): (r: Result<Parsed>)
    requires ts != []
    ensures r.Ok? ==> |r.value.rest| < |ts|
    decreases |ts|, 0
  {
    match ParseExpr(ts[1..], Threshold(ConditionalRule), false)
    case Fail(n) => Fail(n)
    case Ok(b) => Ok(Parsed(Conditional(cond, m, b.expr), b.rest))
  }

  /** An argument_list after its `(`: comma-separated expressions and `)`. */
  function ParseArgs(ts: seq<Token>): (r: Result<ParsedArgs>)
    ensures r.Ok? ==> |r.value.rest| < |ts|
    decreases |ts|, 5
  {
    if ts != [] && ts[0] == Sym(RParen) then Ok(ParsedArgs([], ts[1..]))
    else ParseArgList(ts)
  }

  /** One or more arguments separated by commas, then `)`. */
  function ParseArgList(ts: seq<Token>): (r: Result<ParsedArgs>)
    ensures r.Ok? ==> |r.value.rest| < |ts|
    decreases |ts|, 4
  {
    match ParseExpr(ts, Top, false)
    case Fail(n) => Fail(n)
    case Ok(a) =>
      if a.rest != [] && a.rest[0] == Sym(RParen) then Ok(ParsedArgs([a.expr], a.rest[1..]))
      else if a.rest != [] && a.rest[0] == Sym(Comma) then
        match ParseArgList(a.rest[1..])
        case Fail(n) => Fail(n)
        case Ok(more) => Ok(ParsedArgs([a.expr] + more.args, more.rest))
      else Fail(|a.rest|)
  }

  /** A whole token sequence as one expression. */
  function Parse(ts: seq<Token>): Result<Expr> {
    match ParseExpr(ts, Top, false)
    case Fail(n) => Fail(n)
    case Ok(p) => if p.rest == [] then Ok(p.expr) else Fail(|p.rest|)
  }

  // ---------------------------------------------------------------------------
  // Soundness: whatever the parser returns is the resolved tree of the tokens
  // it read. The lemmas follow the parsing functions call for call.

  lemma {:induction false} ParseExprSound(ts: seq<Token>, t: int, inPointer: bool)
    requires inPointer ==> t > Top
    ensures ParseExpr(ts, t, inPointer).Ok? ==> ParsedAt(ts, t, inPointer, ParseExpr(ts, t, inPointer).value)
    decreases |ts|, 3
  {
    PrefixSound(ts, inPointer);
    match ParsePrefix(ts, inPointer)
    case Fail(_) =>
    case Ok(h) =>
      TailSound(h.expr, h.rest, t, inPointer);
      if ParseTail(h.expr, h.rest, t, inPointer).Ok? {
        PrefixThenTail(ts, t, inPointer, h, ParseTail(h.expr, h.rest, t, inPointer).value);
      }
  }

  lemma {:induction false} PrefixSound(ts: seq<Token>, inPointer: bool)
    ensures ParsePrefix(ts, inPointer).Ok? ==> PrefixOk(ts, inPointer, ParsePrefix(ts, inPointer).value)
    decreases |ts|, 2
  {
    if ts != [] {
      match ts[0]
      case Ident(n) =>
        assert ts == Print(Identifier(n)) + ts[1..];
      case Lit(k, s) =>
        assert ts == Print(Literal(k, s)) + ts[1..];
      case SizeofKw => SizeofSound(ts, inPointer);
      case Sym(p) =>
        if p == LParen {
          ParenOrCastSound(ts, inPointer);
        } else if UnaryOf(p).Some? || PointerOf(p).Some? || UpdateOf(p).Some? {
          OperandSound(ts, inPointer);
        }
      case _ =>
    }
  }

  lemma {:induction false} OperandSound(ts: seq<Token>, inPointer: bool)
    requires ts != [] && ts[0].Sym?
    requires UnaryOf(ts[0].p).Some? || PointerOf(ts[0].p).Some? || UpdateOf(ts[0].p).Some?
    ensures ParseOperand(ts, inPointer).Ok? ==> PrefixOk(ts, inPointer, ParseOperand(ts, inPointer).value)
    decreases |ts|, 1
  {
    var p := ts[0].p;
    var f := inPointer || PointerOf(p).Some?;
    ParseExprSound(ts[1..], Threshold(PrefixRule(p)), f);
    if ParseOperand(ts, inPointer).Ok? {
      var a := ParseExpr(ts[1..], Threshold(PrefixRule(p)), f).value;
      PrefixBuilt(ParseOperand(ts, inPointer).value.expr, [ts[0]], ts, inPointer, a);
    }
  }

  lemma {:induction false} SizeofSound(ts: seq<Token>, inPointer: bool)
    requires ts != [] && ts[0] == SizeofKw
    ensures ParseSizeof(ts, inPointer).Ok? ==> PrefixOk(ts, inPointer, ParseSizeof(ts, inPointer).value)
    decreases |ts|, 1
  {
    if |ts| >= 4 && ts[1] == Sym(LParen) && ts[2].TypeName? && ts[3] == Sym(RParen) && !OpensOnly(ts[4..]) {
      SizeofTypeBuilt(ts, inPointer);
    } else {
      ParseExprSound(ts[1..], Threshold(SizeofRule), inPointer);
      if ParseSizeof(ts, inPointer).Ok? {
        var a := ParseExpr(ts[1..], Threshold(SizeofRule), inPointer).value;
        if a.expr.Cast? {
          CastOperandOpens(ts, a);
        }
        PrefixBuilt(SizeofExpr(a.expr), [SizeofKw], ts, inPointer, a);
      }
    }
  }

  /** The operand of a cast read after `sizeof` starts at the token after
      `( T )`. */
  lemma CastOperandOpens(ts: seq<Token>, a: Parsed)
    requires |ts| >= 4 && OpensOnly(ts[4..]) && a.expr.Cast? && Print(a.expr) + a.rest == ts[1..]
    ensures OpensOnly(Print(a.expr.arg))
  {
    var lead := [Sym(LParen), TypeName(a.expr.typeName), Sym(RParen)];
    AppendAssoc(lead, Print(a.expr.arg), a.rest);
    DropLeft(lead, Print(a.expr.arg) + a.rest);
    assert ts[4..] == ts[1..][3..];
    IndexLeft(Print(a.expr.arg), a.rest, 0);
  }

  lemma {:induction false} ParenOrCastSound(ts: seq<Token>, inPointer: bool)
    requires ts != [] && ts[0] == Sym(LParen)
    ensures ParseParenOrCast(ts, inPointer).Ok? ==> PrefixOk(ts, inPointer, ParseParenOrCast(ts, inPointer).value)
    decreases |ts|, 1
  {
    if |ts| >= 2 && ts[1].TypeName? {
      if |ts| >= 3 && ts[2] == Sym(RParen) {
        ParseExprSound(ts[3..], Threshold(CastRule), inPointer);
        if ParseParenOrCast(ts, inPointer).Ok? {
          var a := ParseExpr(ts[3..], Threshold(CastRule), inPointer).value;
          PrefixBuilt(Cast(ts[1].name, a.expr), ts[..3], ts, inPointer, a);
        }
      }
    } else {
      ParseExprSound(ts[1..], Top, false);
      if ParseParenOrCast(ts, inPointer).Ok? {
        ParenBuilt(ts, inPointer, ParseExpr(ts[1..], Top, false).value);
      }
    }
  }

  lemma {:induction false} TailSound(lhs: Expr, ts: seq<Token>, t: int, inPointer: bool)
    requires inPointer ==> t > Top
    ensures ParseTail(lhs, ts, t, inPointer).Ok? ==> TailOk(lhs, ts, t, inPointer, ParseTail(lhs, ts, t, inPointer).value)
    decreases |ts|, 2
  {
    match NextPrec(ts)
    case Some(p) =>
      if p >= t || ShiftsAssignment(lhs, ts, inPointer) {
        StepSound(lhs, ts);
        match ParseStep(lhs, ts)
        case Fail(_) =>
        case Ok(s) =>
          TailSound(s.expr, s.rest, t, inPointer);
          if ParseTail(s.expr, s.rest, t, inPointer).Ok? {
            StepThenTail(lhs, ts, t, inPointer, s, ParseTail(s.expr, s.rest, t, inPointer).value);
          }
      }
    case None =>
  }

  lemma {:induction false} StepSound(lhs: Expr, ts: seq<Token>)
    requires NextPrec(ts).Some?
    ensures ParseStep(lhs, ts).Ok? ==> StepOk(lhs, ts, ParseStep(lhs, ts).value)
    decreases |ts|, 1
  {
    var u := TailRule(ts[0]).value;
    if u.BinaryRule? || u == AssignmentRule {
      if u.BinaryRule? || AssignableTarget(lhs) {
        InfixSound(lhs, ts);
      }
    } else if u == ConditionalRule {
      ConditionalRestSound(lhs, ts[1..]);
      if ParseStep(lhs, ts).Ok? {
        ConditionalStep(lhs, ts, ParseStep(lhs, ts).value);
      }
    } else if u == CallRule {
      ArgsSound(ts[1..]);
      if ParseArgs(ts[1..]).Ok? {
        CallBuilt(lhs, ts, ParseArgs(ts[1..]).value);
      }
    } else if u == SubscriptRule {
      SubscriptSound(lhs, ts);
    } else {
      ClosedStepSound(lhs, ts);
    }
  }

  lemma {:induction false} SubscriptSound(lhs: Expr, ts: seq<Token>)
    requires ts != [] && TailRule(ts[0]) == Some(SubscriptRule)
    ensures ParseSubscript(lhs, ts).Ok? ==> StepOk(lhs, ts, ParseSubscript(lhs, ts).value)
    decreases |ts|, 0
  {
    ParseExprSound(ts[1..], Top, false);
    if ParseSubscript(lhs, ts).Ok? {
      SubscriptBuilt(lhs, ts, ParseExpr(ts[1..], Top, false).value);
    }
  }

  /** The postfix update and field rules read a fixed number of tokens. */
  lemma ClosedStepSound(lhs: Expr, ts: seq<Token>)
    requires ts != [] && (TailRule(ts[0]) == Some(UpdateRule) || TailRule(ts[0]) == Some(FieldRule))
    ensures ParseStep(lhs, ts).Ok? ==> StepOk(lhs, ts, ParseStep(lhs, ts).value)
  {
    if TailRule(ts[0]) == Some(UpdateRule) {
      PostfixBuilt(lhs, ts);
    } else if |ts| >= 2 && ts[1].Ident? {
      FieldBuilt(lhs, ts);
    }
  }

  lemma {:induction false} InfixSound(lhs: Expr, ts: seq<Token>)
    requires ts != [] && TailRule(ts[0]).Some?
    requires TailRule(ts[0]).value == AssignmentRule ==> AssignableTarget(lhs)
    ensures ParseInfix(lhs, ts).Ok? ==> StepOk(lhs, ts, ParseInfix(lhs, ts).value)
    decreases |ts|, 0
  {
    ParseExprSound(ts[1..], Threshold(TailRule(ts[0]).value), false);
    if ParseInfix(lhs, ts).Ok? {
      var b := ParseExpr(ts[1..], Threshold(TailRule(ts[0]).value), false).value;
      InfixBuilt(lhs, ParseInfix(lhs, ts).value.expr, ts, b);
    }
  }

  lemma {:induction false} ConditionalRestSound(cond: Expr, ts: seq<Token>)
    ensures ParseConditionalRest(cond, ts).Ok? ==>
      ConditionalOk(cond, [Sym(Question)], ts, ParseConditionalRest(cond, ts).value)
    decreases |ts|, 4
  {
    if ts != [] && ts[0] == Sym(Colon) {
      AlternativeSound(cond, None, ts);
      AppendEmpty([Sym(Question)]);
    } else {
      ParseExprSound(ts, Top, false);
      match ParseExpr(ts, Top, false)
      case Fail(_) =>
      case Ok(m) =>
        if m.rest != [] && m.rest[0] == Sym(Colon) {
          AlternativeSound(cond, Some(m.expr), m.rest);
          if ParseAlternative(cond, Some(m.expr), m.rest).Ok? {
            ConsequenceThenAlternative(cond, ts, m, ParseAlternative(cond, Some(m.expr), m.rest).value);
          }
        }
    }
  }

  lemma {:induction false} AlternativeSound(cond: Expr, m: Option<Expr>, ts: seq<Token>)
    requires ts != [] && ts[0] == Sym(Colon)
    requires m.Some? ==> Resolved(m.value)
    ensures ParseAlternative(cond, m, ts).Ok? ==>
      ConditionalOk(cond, [Sym(Question)] + OptionalPrint(m), ts, ParseAlternative(cond, m, ts).value)
    decreases |ts|, 0
  {
    ParseExprSound(ts[1..], Threshold(ConditionalRule), false);
    if ParseAlternative(cond, m, ts).Ok? {
      ConditionalBuilt(cond, m, ts, ParseExpr(ts[1..], Threshold(ConditionalRule), false).value);
    }
  }

  lemma {:induction false} ArgsSound(ts: seq<Token>)
    ensures ParseArgs(ts).Ok? ==> ArgsOk(ts, ParseArgs(ts).value)
    decreases |ts|, 5
  {
    if ts != [] && ts[0] == Sym(RParen) {
      assert ts == PrintArgs([]) + [Sym(RParen)] + ts[1..];
    } else {
      ArgListSound(ts);
    }
  }

  lemma {:induction false} ArgListSound(ts: seq<Token>)
    ensures ParseArgList(ts).Ok? ==> ParseArgList(ts).value.args != [] && ArgsOk(ts, ParseArgList(ts).value)
    decreases |ts|, 4
  {
    ParseExprSound(ts, Top, false);
    match ParseExpr(ts, Top, false)
    case Fail(_) =>
    case Ok(a) =>
      if a.rest != [] && a.rest[0] == Sym(RParen) {
        LastArgBuilt(ts, a);
      } else if a.rest != [] && a.rest[0] == Sym(Comma) {
        ArgListSound(a.rest[1..]);
        if ParseArgList(a.rest[1..]).Ok? {
          MoreArgsBuilt(ts, a, ParseArgList(a.rest[1..]).value);
        }
      }
  }

  /** Whatever Parse accepts is the resolved tree whose tokens it was given. */
  lemma ParseSound(ts: seq<Token>)
    ensures Parse(ts).Ok? ==> Print(Parse(ts).value) == ts && Resolved(Parse(ts).value)
  {
    ParseExprSound(ts, Top, false);
    if Parse(ts).Ok? {
      var p := ParseExpr(ts, Top, false).value;
      assert Print(p.expr) + [] == Print(p.expr);
    }
  }

  // ---------------------------------------------------------------------------
  // How each piece of a parse is assembled from the pieces it was built from.

  lemma PrefixThenTail(ts: seq<Token>, t: int, inPointer: bool, h: Parsed, p: Parsed)
    requires PrefixOk(ts, inPointer, h) && TailOk(h.expr, h.rest, t, inPointer, p)
    ensures ParsedAt(ts, t, inPointer, p)
  {
  }

  /** A step the tail loop takes keeps the tree fitting level t: an operator of
      level t or more extends a tree whose left edge reaches t (an assignment
      that fits only by the shift never precedes one, its right edge is open at
      the lowest level), and a shifted assignment makes a tree that fits. */
  lemma StepThenTail(lhs: Expr, ts: seq<Token>, t: int, inPointer: bool, s: Parsed, q: Parsed)
    requires inPointer ==> t > Top
    requires NextPrec(ts).Some? && (NextPrec(ts).value >= t || ShiftsAssignment(lhs, ts, inPointer))
    requires StepOk(lhs, ts, s) && TailOk(s.expr, s.rest, t, inPointer, q)
    ensures TailOk(lhs, ts, t, inPointer, q)
  {
    if Resolved(lhs) && Follows(lhs, ts, inPointer) && Fits(lhs, t, inPointer) && (inPointer ==> ChainFree(lhs)) {
      assert Follows(s.expr, s.rest, inPointer);
      assert Fits(s.expr, t, inPointer);
    }
  }

  lemma PrefixBuilt(e: Expr, lead: seq<Token>, ts: seq<Token>, inPointer: bool, a: Parsed)
    requires e.Unary? || e.Pointer? || e.PrefixUpdate? || e.Cast? || e.SizeofExpr?
    requires e.arg == a.expr && (e.SizeofExpr? && a.expr.Cast? ==> OpensOnly(Print(a.expr.arg)))
    requires Print(e) == lead + Print(a.expr) && lead != []
    requires |lead| <= |ts| && ts[..|lead|] == lead
    requires ParsedAt(ts[|lead|..], Threshold(RuleOf(e)), inPointer || e.Pointer?, a)
    ensures PrefixOk(ts, inPointer, Parsed(e, a.rest))
  {
    assert ts == lead + ts[|lead|..];
    AppendAssoc(lead, Print(a.expr), a.rest);
    PrefixResolves(e, a.rest, inPointer);
  }

  /** A prefix node whose operand was parsed in the chain the node stands in,
      or for a pointer in the chain it starts, is settled, and ends in no
      assignment where the chain forbids one. */
  lemma PrefixResolves(e: Expr, rest: seq<Token>, inPointer: bool)
    requires e.Unary? || e.Pointer? || e.PrefixUpdate? || e.Cast? || e.SizeofExpr?
    requires e.SizeofExpr? && e.arg.Cast? ==> OpensOnly(Print(e.arg.arg))
    requires var f := inPointer || e.Pointer?;
      Resolved(e.arg) && Fits(e.arg, Threshold(RuleOf(e)), f) && (f ==> ChainFree(e.arg))
      && Follows(e.arg, rest, f) && Stops(e.arg, rest, Threshold(RuleOf(e)), f)
    ensures Resolved(e) && Follows(e, rest, inPointer) && (inPointer ==> ChainFree(e))
  {
    assert RightChild(e) == e.arg;
  }

  lemma SizeofTypeBuilt(ts: seq<Token>, inPointer: bool)
    requires |ts| >= 4 && ts[0] == SizeofKw && ts[1] == Sym(LParen) && ts[2].TypeName? && ts[3] == Sym(RParen)
    ensures PrefixOk(ts, inPointer, Parsed(SizeofType(ts[2].name), ts[4..]))
  {
    assert ts == Print(SizeofType(ts[2].name)) + ts[4..];
  }

  lemma ParenBuilt(ts: seq<Token>, inPointer: bool, a: Parsed)
    requires ts != [] && ts[0] == Sym(LParen)
    requires ParsedAt(ts[1..], Top, false, a) && a.rest != [] && a.rest[0] == Sym(RParen)
    ensures PrefixOk(ts, inPointer, Parsed(Parenthesized(a.expr), a.rest[1..]))
  {
    assert ts == [Sym(LParen)] + Print(a.expr) + [Sym(RParen)] + a.rest[1..];
  }

  lemma InfixBuilt(lhs: Expr, e: Expr, ts: seq<Token>, b: Parsed)
    requires e.Binary? || e.Assignment?
    requires e.left == lhs && e.right == b.expr
    requires e.Assignment? ==> AssignableTarget(lhs)
    requires ts != [] && TailRule(ts[0]) == Some(RuleOf(e))
    requires Print(e) == Print(lhs) + ([ts[0]] + Print(b.expr))
    requires ParsedAt(ts[1..], Threshold(RuleOf(e)), false, b)
    ensures StepOk(lhs, ts, Parsed(e, b.rest))
  {
    HeadTail(ts);
    TailOut3(Print(lhs), [ts[0]], Print(b.expr), b.rest);
    if Resolved(lhs) && RightEdgeBelow(lhs, RulePrec(RuleOf(e))) {
      InfixResolves(e, ts[0], b.rest);
    }
  }

  /** A binary or assignment node whose operands were each settled by the
      table is itself settled. */
  lemma InfixResolves(e: Expr, op: Token, rest: seq<Token>)
    requires e.Binary? || e.Assignment?
    requires e.Assignment? ==> AssignableTarget(e.left)
    requires TailRule(op) == Some(RuleOf(e))
    requires Resolved(e.left) && RightEdgeBelow(e.left, RulePrec(RuleOf(e)))
    requires Resolved(e.right) && Fits(e.right, Threshold(RuleOf(e)), false)
    requires Follows(e.right, rest, false) && Stops(e.right, rest, Threshold(RuleOf(e)), false)
    ensures Resolved(e) && Follows(e, rest, false)
  {
  }

  lemma PostfixBuilt(lhs: Expr, ts: seq<Token>)
    requires ts != [] && TailRule(ts[0]) == Some(UpdateRule)
    ensures StepOk(lhs, ts, Parsed(PostfixUpdate(UpdateOf(ts[0].p).value, lhs), ts[1..]))
  {
    var e := PostfixUpdate(UpdateOf(ts[0].p).value, lhs);
    HeadTail(ts);
    AppendAssoc(Print(lhs), [ts[0]], ts[1..]);
    assert RightEdgeBelow(e, 0) && !Captures(e, false);
  }

  lemma FieldBuilt(lhs: Expr, ts: seq<Token>)
    requires |ts| >= 2 && TailRule(ts[0]) == Some(FieldRule) && ts[1].Ident?
    ensures StepOk(lhs, ts, Parsed(Field(lhs, if ts[0] == Sym(DotPunct) then Dot else Arrow, ts[1].name), ts[2..]))
  {
    var e := Field(lhs, if ts[0] == Sym(DotPunct) then Dot else Arrow, ts[1].name);
    FirstTwo(ts);
    AppendAssoc(Print(lhs), [ts[0], ts[1]], ts[2..]);
    assert RightEdgeBelow(e, 0) && !Captures(e, false);
  }

  lemma CallBuilt(lhs: Expr, ts: seq<Token>, a: ParsedArgs)
    requires ts != [] && ts[0] == Sym(LParen) && ArgsOk(ts[1..], a)
    ensures StepOk(lhs, ts, Parsed(Call(lhs, a.args), a.rest))
  {
    var e := Call(lhs, a.args);
    HeadTail(ts);
    TailOut3(Print(lhs), [Sym(LParen)], PrintArgs(a.args) + [Sym(RParen)], a.rest);
    assert RightEdgeBelow(e, 0) && !Captures(e, false);
  }

  lemma SubscriptBuilt(lhs: Expr, ts: seq<Token>, b: Parsed)
    requires ts != [] && ts[0] == Sym(LBracket)
    requires Print(b.expr) + b.rest == ts[1..] && Resolved(b.expr)
    requires b.rest != [] && b.rest[0] == Sym(RBracket)
    ensures StepOk(lhs, ts, Parsed(Subscript(lhs, b.expr), b.rest[1..]))
  {
    var e := Subscript(lhs, b.expr);
    HeadTail(ts);
    HeadTail(b.rest);
    TailOut4(Print(lhs), [Sym(LBracket)], Print(b.expr), [Sym(RBracket)], b.rest[1..]);
    if Resolved(lhs) && RightEdgeBelow(lhs, SUBSCRIPT) {
      SubscriptResolves(e, b.rest[1..]);
    }
  }

  /** A subscript whose array operand was reduced before `[` is settled. */
  lemma SubscriptResolves(e: Expr, rest: seq<Token>)
    requires e.Subscript? && Resolved(e.arg) && Resolved(e.index)
    requires RightEdgeBelow(e.arg, SUBSCRIPT)
    ensures Resolved(e) && Follows(e, rest, false)
  {
    assert RightEdgeBelow(e, 0) && !Captures(e, false);
  }

  lemma ConditionalStep(lhs: Expr, ts: seq<Token>, c: Parsed)
    requires ts != [] && ts[0] == Sym(Question)
    requires ConditionalOk(lhs, [Sym(Question)], ts[1..], c)
    ensures StepOk(lhs, ts, c)
  {
    HeadTail(ts);
    AppendAssoc(Print(lhs), [Sym(Question)], ts[1..]);
  }

  lemma ConditionalBuilt(cond: Expr, m: Option<Expr>, ts: seq<Token>, b: Parsed)
    requires ts != [] && ts[0] == Sym(Colon)
    requires m.Some? ==> Resolved(m.value)
    requires ParsedAt(ts[1..], Threshold(ConditionalRule), false, b)
    ensures ConditionalOk(cond, [Sym(Question)] + OptionalPrint(m), ts, Parsed(Conditional(cond, m, b.expr), b.rest))
  {
    var lead := [Sym(Question)] + OptionalPrint(m);
    var e := Conditional(cond, m, b.expr);
    HeadTail(ts);
    JoinOut5(Print(cond), [Sym(Question)], OptionalPrint(m), [Sym(Colon)], Print(b.expr), b.rest);
    if Resolved(cond) && RightEdgeBelow(cond, CONDITIONAL) {
      ConditionalResolves(Conditional(cond, m, b.expr), b.rest);
    }
  }

  /** A conditional whose condition, consequence and alternative were each
      settled by the table is itself settled. */
  lemma ConditionalResolves(e: Expr, rest: seq<Token>)
    requires e.Conditional?
    requires Resolved(e.condition) && RightEdgeBelow(e.condition, CONDITIONAL)
    requires e.consequence.Some? ==> Resolved(e.consequence.value)
    requires Resolved(e.alternative) && Fits(e.alternative, Threshold(ConditionalRule), false)
    requires Follows(e.alternative, rest, false) && Stops(e.alternative, rest, Threshold(ConditionalRule), false)
    ensures Resolved(e) && Follows(e, rest, false)
  {
  }

  lemma ConsequenceThenAlternative(cond: Expr, ts: seq<Token>, m: Parsed, c: Parsed)
    requires ParsedAt(ts, Top, false, m)
    requires ConditionalOk(cond, [Sym(Question)] + OptionalPrint(Some(m.expr)), m.rest, c)
    ensures ConditionalOk(cond, [Sym(Question)], ts, c)
  {
    JoinOut(Print(cond), [Sym(Question)], Print(m.expr), m.rest);
  }

  lemma LastArgBuilt(ts: seq<Token>, a: Parsed)
    requires ParsedAt(ts, Top, false, a) && a.rest != [] && a.rest[0] == Sym(RParen)
    ensures ArgsOk(ts, ParsedArgs([a.expr], a.rest[1..]))
  {
    assert ts == PrintArgs([a.expr]) + [Sym(RParen)] + a.rest[1..];
  }

  lemma MoreArgsBuilt(ts: seq<Token>, a: Parsed, more: ParsedArgs)
    requires ParsedAt(ts, Top, false, a) && a.rest != [] && a.rest[0] == Sym(Comma)
    requires more.args != [] && ArgsOk(a.rest[1..], more)
    ensures ArgsOk(ts, ParsedArgs([a.expr] + more.args, more.rest))
  {
    var args := [a.expr] + more.args;
    assert args[1..] == more.args;
    assert ts == PrintArgs(args) + [Sym(RParen)] + more.rest;
    forall i | 0 <= i < |args| ensures Resolved(args[i]) {
      if i > 0 { assert args[i] == more.args[i - 1]; }
    }
  }
}
