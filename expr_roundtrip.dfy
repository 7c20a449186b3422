/** The parser is the exact inverse of the printer on resolved trees: a token
    sequence parses to e exactly when e is resolved and prints as that sequence. */
module ExprRoundTrip {
  import opened Wrappers
  import opened Precedence
  import opened Tokens
  import opened Expressions
  import opened ExprParser
  import opened SeqFacts

  /** The first node down the left edge of e that does not start with an
      expression: what ParsePrefix reads. */
  function Head(e: Expr): (h: Expr)
    ensures !LeftOpen(h) && Size(h) <= Size(e)
    decreases e
  {
    if LeftOpen(e) then Head(LeftChild(e)) else e
  }

  /** The tokens of a left-open node after its left operand. */
  function OperatorPart(e: Expr): seq<Token>
    requires LeftOpen(e)
  {
    match e
    case Binary(op, _, r) => [Sym(BinaryPunct(op))] + Print(r)
    case Assignment(op, _, r) => [Sym(AssignPunct(op))] + Print(r)
    case Conditional(_, m, alt) => [Sym(Question)] + (OptionalPrint(m) + ([Sym(Colon)] + Print(alt)))
    case PostfixUpdate(op, _) => [Sym(UpdatePunct(op))]
    case Call(_, args) => [Sym(LParen)] + (PrintArgs(args) + [Sym(RParen)])
    case Subscript(_, i) => [Sym(LBracket)] + (Print(i) + [Sym(RBracket)])
    case Field(_, op, m) => [Sym(FieldPunct(op)), Ident(m)]
  }

  /** A left-open node prints as its left operand and then its operator part,
      whose first token selects the node's rule. */
  lemma OperatorPartSplits(e: Expr)
    requires LeftOpen(e)
    ensures Print(e) == Print(LeftChild(e)) + OperatorPart(e)
    ensures OperatorPart(e) != [] && TailRule(OperatorPart(e)[0]) == Some(RuleOf(e))
  {
  }

  /** The tokens of e after those of Head(e). */
  function AfterHead(e: Expr): seq<Token>
    decreases e
  {
    if LeftOpen(e) then AfterHead(LeftChild(e)) + OperatorPart(e) else []
  }

  /** e prints as its head and then the rest of its tokens. */
  lemma {:induction false} HeadSplits(e: Expr)
    ensures Print(e) == Print(Head(e)) + AfterHead(e)
    decreases e
  {
    if LeftOpen(e) {
      var l := LeftChild(e);
      HeadSplits(l);
      OperatorPartSplits(e);
      Chain(Print(e), Print(l), OperatorPart(e), Print(Head(l)), AfterHead(l));
    } else {
      AppendEmpty(Print(e));
    }
  }

  /** The tokens of e after its head, if any, start with an operator that
      continues an expression. */
  lemma {:induction false} AfterHeadContinues(e: Expr)
    ensures AfterHead(e) != [] ==> TailRule(AfterHead(e)[0]).Some?
    decreases e
  {
    if LeftOpen(e) {
      var l := LeftChild(e);
      AfterHeadContinues(l);
      OperatorPartSplits(e);
      if AfterHead(l) == [] {
        AppendEmpty(OperatorPart(e));
      } else {
        IndexLeft(AfterHead(l), OperatorPart(e), 0);
      }
    }
  }

  /** Whatever follows a left-open node follows its operator part. */
  lemma OperatorFollows(e: Expr, rest: seq<Token>, inPointer: bool)
    requires LeftOpen(e) && Resolved(e)
    ensures NextPrec(OperatorPart(e) + rest) == Some(RulePrec(RuleOf(e)))
    ensures AssignNext(OperatorPart(e) + rest) <==> e.Assignment?
    ensures Follows(LeftChild(e), OperatorPart(e) + rest, inPointer)
  {
    OperatorPartSplits(e);
    IndexLeft(OperatorPart(e), rest, 0);
  }

  /** The head of a resolved tree is resolved. */
  lemma {:induction false} HeadResolved(e: Expr)
    requires Resolved(e)
    ensures Resolved(Head(e))
    decreases e
  {
    if LeftOpen(e) {
      HeadResolved(LeftChild(e));
    }
  }

  /** The rest of a resolved tree's tokens follow its head. */
  lemma {:induction false} HeadFollows(e: Expr, rest: seq<Token>, inPointer: bool)
    requires Resolved(e) && Follows(e, rest, inPointer)
    ensures Follows(Head(e), AfterHead(e) + rest, inPointer)
    decreases e
  {
    if LeftOpen(e) {
      var l := LeftChild(e);
      OperatorFollows(e, rest, inPointer);
      HeadFollows(l, OperatorPart(e) + rest, inPointer);
      AppendAssoc(AfterHead(l), OperatorPart(e), rest);
    } else {
      AppendEmpty(rest);
    }
  }

  /** A cast never heads an operand of sizeof: the only resolved trees whose
      tokens start with `(` and a type name are casts. */
  lemma {:induction false} NoCastHead(e: Expr)
    requires Resolved(e) && !e.Cast? && Fits(e, Threshold(SizeofRule), false)
    ensures Print(e)[0] == Sym(LParen) ==> |Print(e)| >= 2 && !Print(e)[1].TypeName?
    decreases e
  {
    if LeftOpen(e) {
      var l := LeftChild(e);
      NoCastHead(l);
      OperatorPartSplits(e);
      IndexLeft(Print(l), OperatorPart(e), 0);
      if |Print(l)| >= 2 {
        IndexLeft(Print(l), OperatorPart(e), 1);
      }
    } else if e.Parenthesized? {
      Uncons1(Sym(LParen), Print(e.inner) + [Sym(RParen)]);
      IndexLeft(Print(e.inner), [Sym(RParen)], 0);
    }
  }

  /** A token that continues no expression closes whatever precedes it. */
  lemma ClosedBy(e: Expr, ts: seq<Token>, t: int)
    requires ts != [] && TailRule(ts[0]).None? && !StartsExpression(ts[0])
    ensures Follows(e, ts, false) && Stops(e, ts, t, false)
  {
  }

  /** A tree whose right edge an operator of level p >= ASSIGNMENT passes
      has no assignment at the end of its prefix chain. */
  lemma {:induction false} ChainFreeBelow(e: Expr, p: int)
    requires RightEdgeBelow(e, p) && p >= ASSIGNMENT
    ensures ChainFree(e)
    decreases e
  {
    if RightOpen(e) && !LeftOpen(e) {
      ChainFreeBelow(RightChild(e), p);
    }
  }

  /** The head of a resolved tree ends in no assignment either. */
  lemma {:induction false} HeadChainFree(e: Expr)
    requires Resolved(e) && ChainFree(e)
    ensures ChainFree(Head(e))
    decreases e
  {
    if LeftOpen(e) {
      ChainFreeBelow(LeftChild(e), RulePrec(RuleOf(e)));
      HeadChainFree(LeftChild(e));
    }
  }

  /** Operands of level above CAST end in no assignment that captures an
      assignment operator inside a pointer operand. */
  lemma TightNoCapture(a: Expr, t: int)
    requires LeftEdgeAtLeast(a, t) && t > CAST
    ensures !Captures(a, true)
  {
  }

  // ---------------------------------------------------------------------------
  // Parsing what was printed. The lemmas are mutually recursive on the size
  // of the tree; the second component orders the calls made on one tree.

  /** Parsing the tokens of a resolved e, followed by tokens that do not
      continue it at level t, yields e. */
  lemma {:induction false} ParseExprInverse(e: Expr, rest: seq<Token>, t: int, inPointer: bool)
    requires Resolved(e) && Fits(e, t, inPointer) && (inPointer ==> ChainFree(e))
    requires Follows(e, rest, inPointer) && Stops(e, rest, t, inPointer)
    ensures ParseExpr(Print(e) + rest, t, inPointer) == Ok(Parsed(e, rest))
    decreases Size(e), 10
  {
    var h := Head(e);
    HeadSplits(e);
    HeadResolved(e);
    AppendAssoc(Print(h), AfterHead(e), rest);
    HeadFollows(e, rest, inPointer);
    if inPointer {
      HeadChainFree(e);
    }
    AfterHeadContinues(e);
    if AfterHead(e) == [] {
      AppendEmpty(rest);
    } else {
      IndexLeft(AfterHead(e), rest, 0);
    }
    PrefixInverse(h, AfterHead(e) + rest, inPointer);
    TailSteps(e, rest, t, inPointer);
  }

  /** ParsePrefix reads back a node that does not start with an expression. */
  lemma {:induction false} PrefixInverse(h: Expr, rest: seq<Token>, inPointer: bool)
    requires !LeftOpen(h) && Resolved(h) && Follows(h, rest, inPointer) && (inPointer ==> ChainFree(h))
    requires !OpensOnly(rest)
    ensures ParsePrefix(Print(h) + rest, inPointer) == Ok(Parsed(h, rest))
    decreases Size(h), 9
  {
    if h.Identifier? || h.Literal? || h.SizeofType? {
      AtomInverse(h, rest, inPointer);
    } else if h.Parenthesized? {
      ParenInverse(h, rest, inPointer);
    } else if h.Cast? {
      CastInverse(h, rest, inPointer);
    } else if h.SizeofExpr? {
      SizeofInverse(h, rest, inPointer);
    } else {
      PrefixPunctsRecognised(if h.Unary? then h.uop else Not,
        if h.Pointer? then h.pop else Dereference,
        if h.PrefixUpdate? then h.upop else Increment);
      OperandInverse(h, rest, inPointer);
    }
  }

  lemma AtomInverse(h: Expr, rest: seq<Token>, inPointer: bool)
    requires h.Identifier? || h.Literal? || h.SizeofType?
    requires h.SizeofType? ==> !OpensOnly(rest)
    ensures ParsePrefix(Print(h) + rest, inPointer) == Ok(Parsed(h, rest))
  {
    var p := Print(h);
    DropLeft(p, rest);
    IndexLeft(p, rest, 0);
    if h.SizeofType? {
      IndexLeft(p, rest, 1);
      IndexLeft(p, rest, 2);
      IndexLeft(p, rest, 3);
      assert (p + rest)[4..] == rest;
    }
  }

  lemma {:induction false} ParenInverse(h: Expr, rest: seq<Token>, inPointer: bool)
    requires h.Parenthesized? && Resolved(h)
    ensures ParsePrefix(Print(h) + rest, inPointer) == Ok(Parsed(h, rest))
    decreases Size(h), 7
  {
    var i := h.inner;
    var tail := [Sym(RParen)] + rest;
    Uncons(Sym(LParen), Print(i) + [Sym(RParen)], rest);
    AppendAssoc(Print(i), [Sym(RParen)], rest);
    IndexLeft(Print(i), tail, 0);
    Uncons1(Sym(RParen), rest);
    AnyExprAtTop(i);
    ClosedBy(i, tail, Top);
    ParseExprInverse(i, tail, Top, false);
  }

  lemma {:induction false} CastInverse(h: Expr, rest: seq<Token>, inPointer: bool)
    requires h.Cast? && Resolved(h) && Follows(h, rest, inPointer) && (inPointer ==> ChainFree(h))
    requires !OpensOnly(rest)
    ensures ParsePrefix(Print(h) + rest, inPointer) == Ok(Parsed(h, rest))
    decreases Size(h), 7
  {
    var lead := [Sym(LParen), TypeName(h.typeName), Sym(RParen)];
    AppendAssoc(lead, Print(h.arg), rest);
    DropLeft(lead, Print(h.arg) + rest);
    IndexLeft(lead, Print(h.arg) + rest, 0);
    IndexLeft(lead, Print(h.arg) + rest, 1);
    IndexLeft(lead, Print(h.arg) + rest, 2);
    OperandFitsInverse(h, rest, inPointer);
    ParseExprInverse(h.arg, rest, Threshold(CastRule), inPointer);
  }

  lemma {:induction false} SizeofInverse(h: Expr, rest: seq<Token>, inPointer: bool)
    requires h.SizeofExpr? && Resolved(h) && Follows(h, rest, inPointer) && (inPointer ==> ChainFree(h))
    requires !OpensOnly(rest)
    ensures ParsePrefix(Print(h) + rest, inPointer) == Ok(Parsed(h, rest))
    decreases Size(h), 7
  {
    var a := h.arg;
    Uncons(SizeofKw, Print(a), rest);
    if a.Cast? {
      SizeofCastLead(a, rest);
    } else {
      NoCastHead(a);
      IndexLeft(Print(a), rest, 0);
      if |Print(a)| >= 2 {
        IndexLeft(Print(a), rest, 1);
      }
    }
    OperandFitsInverse(h, rest, inPointer);
    ParseExprInverse(a, rest, Threshold(SizeofRule), inPointer);
  }

  /** After `sizeof`, the tokens of a cast whose operand opens with a token
      that cannot continue an expression are `( T )` and that token. */
  lemma SizeofCastLead(a: Expr, rest: seq<Token>)
    requires a.Cast? && OpensOnly(Print(a.arg))
    ensures var ts := [SizeofKw] + Print(a) + rest;
      |ts| >= 5 && ts[1] == Sym(LParen) && ts[2] == TypeName(a.typeName) && ts[3] == Sym(RParen)
      && OpensOnly(ts[4..])
  {
    var lead := [Sym(LParen), TypeName(a.typeName), Sym(RParen)];
    var ts := [SizeofKw] + Print(a) + rest;
    assert ts == [SizeofKw] + lead + (Print(a.arg) + rest);
    IndexLeft(Print(a.arg), rest, 0);
  }

  /** The operand of a prefix node meets what parsing it back needs, in the
      chain the node stands in or, for a pointer, the chain it starts. */
  lemma OperandFitsInverse(h: Expr, rest: seq<Token>, inPointer: bool)
    requires RightOpen(h) && !LeftOpen(h)
    requires Resolved(h) && Follows(h, rest, inPointer) && (inPointer ==> ChainFree(h))
    requires !OpensOnly(rest)
    ensures var f := inPointer || h.Pointer?;
      Fits(h.arg, Threshold(RuleOf(h)), f) && (f ==> ChainFree(h.arg))
      && Follows(h.arg, rest, f) && Stops(h.arg, rest, Threshold(RuleOf(h)), f)
  {
    if inPointer || h.Pointer? {
      TightNoCapture(h.arg, Threshold(RuleOf(h)));
    }
  }

  lemma {:induction false} OperandInverse(h: Expr, rest: seq<Token>, inPointer: bool)
    requires h.Unary? || h.Pointer? || h.PrefixUpdate?
    requires Resolved(h) && Follows(h, rest, inPointer) && (inPointer ==> ChainFree(h))
    requires h.Unary? ==> UnaryOf(UnaryPunct(h.uop)) == Some(h.uop)
    requires h.Pointer? ==> UnaryOf(PointerPunct(h.pop)).None? && PointerOf(PointerPunct(h.pop)) == Some(h.pop)
    requires h.PrefixUpdate? ==> (UnaryOf(UpdatePunct(h.upop)).None? && PointerOf(UpdatePunct(h.upop)).None?
      && UpdateOf(UpdatePunct(h.upop)) == Some(h.upop))
    requires !OpensOnly(rest)
    ensures ParsePrefix(Print(h) + rest, inPointer) == Ok(Parsed(h, rest))
    decreases Size(h), 7
  {
    Uncons(Print(h)[0], Print(h.arg), rest);
    OperandFitsInverse(h, rest, inPointer);
    ParseExprInverse(h.arg, rest, Threshold(RuleOf(h)), inPointer || h.Pointer?);
  }

  /** Running the tail loop from the head of e over the rest of e's tokens
      rebuilds e, one left-open node at a time, bottom-up. */
  lemma {:induction false} TailSteps(e: Expr, rest: seq<Token>, t: int, inPointer: bool)
    requires Resolved(e) && Fits(e, t, inPointer) && Follows(e, rest, inPointer) && !OpensOnly(rest)
    ensures ParseTail(Head(e), AfterHead(e) + rest, t, inPointer) == ParseTail(e, rest, t, inPointer)
    decreases Size(e), 9
  {
    if LeftOpen(e) {
      OpenTailSteps(e, rest, t, inPointer);
    } else {
      AppendEmpty(rest);
    }
  }

  lemma {:induction false} OpenTailSteps(e: Expr, rest: seq<Token>, t: int, inPointer: bool)
    requires LeftOpen(e) && Resolved(e) && Fits(e, t, inPointer) && Follows(e, rest, inPointer) && !OpensOnly(rest)
    ensures ParseTail(Head(e), AfterHead(e) + rest, t, inPointer) == ParseTail(e, rest, t, inPointer)
    decreases Size(e), 8
  {
    var l := LeftChild(e);
    OperatorFollows(e, rest, inPointer);
    TailSteps(l, OperatorPart(e) + rest, t, inPointer);
    AppendAssoc(AfterHead(l), OperatorPart(e), rest);
    OneStep(e, rest, t, inPointer);
  }

  /** One turn of the tail loop over a node's operator part rebuilds the node:
      its operator reaches level t, or it is an assignment the table shifts. */
  lemma {:induction false} OneStep(e: Expr, rest: seq<Token>, t: int, inPointer: bool)
    requires LeftOpen(e) && Resolved(e) && Fits(e, t, inPointer) && Follows(e, rest, inPointer) && !OpensOnly(rest)
    ensures ParseTail(LeftChild(e), OperatorPart(e) + rest, t, inPointer) == ParseTail(e, rest, t, inPointer)
    decreases Size(e), 7
  {
    OperatorFollows(e, rest, inPointer);
    StepInverse(e, rest);
  }

  /** ParseStep reads back one left-open node given its left operand. */
  lemma {:induction false} StepInverse(e: Expr, rest: seq<Token>)
    requires LeftOpen(e) && Resolved(e) && Follows(e, rest, false) && !OpensOnly(rest)
    ensures ParseStep(LeftChild(e), OperatorPart(e) + rest) == Ok(Parsed(e, rest))
    decreases Size(e), 6
  {
    if e.Binary? || e.Assignment? {
      InfixInverse(e, rest);
    } else if e.Conditional? {
      ConditionalStepInverse(e, rest);
    } else if e.Call? {
      CallInverse(e, rest);
    } else if e.Subscript? {
      SubscriptInverse(e, rest);
    } else {
      ClosedInverse(e, rest);
    }
  }

  lemma {:induction false} InfixInverse(e: Expr, rest: seq<Token>)
    requires (e.Binary? || e.Assignment?) && Resolved(e) && Follows(e, rest, false) && !OpensOnly(rest)
    ensures ParseStep(LeftChild(e), OperatorPart(e) + rest) == Ok(Parsed(e, rest))
    decreases Size(e), 5
  {
    OperatorPartSplits(e);
    Uncons(OperatorPart(e)[0], Print(e.right), rest);
    ParseExprInverse(e.right, rest, Threshold(RuleOf(e)), false);
  }

  lemma {:induction false} ConditionalStepInverse(e: Expr, rest: seq<Token>)
    requires e.Conditional? && Resolved(e) && Follows(e, rest, false) && !OpensOnly(rest)
    ensures ParseStep(LeftChild(e), OperatorPart(e) + rest) == Ok(Parsed(e, rest))
    decreases Size(e), 5
  {
    var x := OptionalPrint(e.consequence) + ([Sym(Colon)] + Print(e.alternative));
    Uncons(Sym(Question), x, rest);
    ConditionalInverse(e, rest);
  }

  /** The part of a conditional after `?` is read back. */
  lemma {:induction false} ConditionalInverse(e: Expr, rest: seq<Token>)
    requires e.Conditional? && Resolved(e) && Follows(e, rest, false) && !OpensOnly(rest)
    ensures ParseConditionalRest(e.condition, OptionalPrint(e.consequence) + ([Sym(Colon)] + Print(e.alternative)) + rest)
      == Ok(Parsed(e, rest))
    decreases Size(e), 4
  {
    var y := [Sym(Colon)] + Print(e.alternative);
    var tail := y + rest;
    Uncons(Sym(Colon), Print(e.alternative), rest);
    AlternativeInverse(e, rest);
    match e.consequence
    case None =>
      AppendEmpty(y);
    case Some(m) =>
      AppendAssoc(Print(m), y, rest);
      IndexLeft(Print(m), tail, 0);
      AnyExprAtTop(m);
      ClosedBy(m, tail, Top);
      ParseExprInverse(m, tail, Top, false);
  }

  lemma {:induction false} AlternativeInverse(e: Expr, rest: seq<Token>)
    requires e.Conditional? && Resolved(e) && Follows(e, rest, false) && !OpensOnly(rest)
    ensures ParseAlternative(e.condition, e.consequence, [Sym(Colon)] + Print(e.alternative) + rest) == Ok(Parsed(e, rest))
    decreases Size(e), 3
  {
    Uncons(Sym(Colon), Print(e.alternative), rest);
    ParseExprInverse(e.alternative, rest, Threshold(ConditionalRule), false);
  }

  lemma {:induction false} CallInverse(e: Expr, rest: seq<Token>)
    requires e.Call? && Resolved(e)
    ensures ParseStep(LeftChild(e), OperatorPart(e) + rest) == Ok(Parsed(e, rest))
    decreases Size(e), 5
  {
    Uncons(Sym(LParen), PrintArgs(e.args) + [Sym(RParen)], rest);
    ArgsInverse(e.args, rest);
  }

  lemma {:induction false} SubscriptInverse(e: Expr, rest: seq<Token>)
    requires e.Subscript? && Resolved(e)
    ensures ParseStep(LeftChild(e), OperatorPart(e) + rest) == Ok(Parsed(e, rest))
    decreases Size(e), 5
  {
    var i := e.index;
    var tail := [Sym(RBracket)] + rest;
    Uncons(Sym(LBracket), Print(i) + [Sym(RBracket)], rest);
    AppendAssoc(Print(i), [Sym(RBracket)], rest);
    Uncons1(Sym(RBracket), rest);
    AnyExprAtTop(i);
    ClosedBy(i, tail, Top);
    ParseExprInverse(i, tail, Top, false);
  }

  lemma ClosedInverse(e: Expr, rest: seq<Token>)
    requires e.PostfixUpdate? || e.Field?
    ensures ParseStep(LeftChild(e), OperatorPart(e) + rest) == Ok(Parsed(e, rest))
  {
    var p := OperatorPart(e);
    DropLeft(p, rest);
    IndexLeft(p, rest, 0);
    if e.PostfixUpdate? {
      PrefixPunctsRecognised(Not, Dereference, e.upop);
    } else {
      IndexLeft(p, rest, 1);
    }
  }

  /** ParseArgs reads back an argument list and its `)`. */
  lemma {:induction false} ArgsInverse(args: seq<Expr>, rest: seq<Token>)
    requires forall i | 0 <= i < |args| :: Resolved(args[i])
    ensures ParseArgs(PrintArgs(args) + [Sym(RParen)] + rest) == Ok(ParsedArgs(args, rest))
    decreases ArgsSize(args), 12
  {
    if args == [] {
      AppendEmpty([Sym(RParen)]);
      Uncons1(Sym(RParen), rest);
    } else {
      IndexLeft(PrintArgs(args) + [Sym(RParen)], rest, 0);
      IndexLeft(PrintArgs(args), [Sym(RParen)], 0);
      ArgListInverse(args, rest);
    }
  }

  lemma {:induction false} ArgListInverse(args: seq<Expr>, rest: seq<Token>)
    requires args != [] && forall i | 0 <= i < |args| :: Resolved(args[i])
    ensures ParseArgList(PrintArgs(args) + [Sym(RParen)] + rest) == Ok(ParsedArgs(args, rest))
    decreases ArgsSize(args), 11
  {
    var a := args[0];
    AnyExprAtTop(a);
    HeadTail(args);
    if |args| == 1 {
      AppendAssoc(Print(a), [Sym(RParen)], rest);
      Uncons1(Sym(RParen), rest);
      ClosedBy(a, [Sym(RParen)] + rest, Top);
      ParseExprInverse(a, [Sym(RParen)] + rest, Top, false);
      assert args == [a];
    } else {
      var more := PrintArgs(args[1..]) + [Sym(RParen)] + rest;
      Regroup(Print(a), [Sym(Comma)], PrintArgs(args[1..]), [Sym(RParen)], rest);
      Uncons1(Sym(Comma), more);
      ClosedBy(a, [Sym(Comma)] + more, Top);
      ParseExprInverse(a, [Sym(Comma)] + more, Top, false);
      assert forall i | 0 <= i < |args[1..]| :: args[1..][i] == args[i + 1];
      ArgListInverse(args[1..], rest);
    }
  }

  /** Print then Parse gives back every resolved tree. */
  lemma ParsePrintRoundTrip(e: Expr)
    requires Resolved(e)
    ensures Parse(Print(e)) == Ok(e)
  {
    AnyExprAtTop(e);
    AppendEmpty(Print(e));
    assert Stops(e, [], Top, false);
    ParseExprInverse(e, [], Top, false);
  }

  /** Parse accepts a token sequence exactly when some resolved tree prints as
      it, and then returns that tree. */
  lemma ParseExactlyInvertsPrint(ts: seq<Token>, e: Expr)
    ensures Parse(ts) == Ok(e) <==> Resolved(e) && Print(e) == ts
  {
    ParseSound(ts);
    if Resolved(e) && Print(e) == ts {
      ParsePrintRoundTrip(e);
    }
  }

  /** No two resolved trees share their tokens: the precedences leave no
      expression ambiguous. */
  lemma ResolvedTreesUnambiguous(e1: Expr, e2: Expr)
    requires Resolved(e1) && Resolved(e2) && Print(e1) == Print(e2)
    ensures e1 == e2
  {
    ParsePrintRoundTrip(e1);
    ParsePrintRoundTrip(e2);
  }
}
