/** What the declared precedences mean for the trees the parser returns: how
    the operands of binary and assignment nodes may look, and the grouping of
    a few characteristic token sequences. */
module ExprExamples {
  import opened Wrappers
  import opened Precedence
  import opened Tokens
  import opened Expressions
  import opened ExprParser
  import opened ExprRoundTrip

  /** In a resolved binary node, a binary left operand binds at least as
      tightly and a binary right operand strictly more tightly (every binary
      operator is `prec.left`); neither operand is a bare conditional, and the
      left one is no assignment, which bind more loosely than every binary
      operator. The right operand may be an assignment, whose `=` the table
      shifts after a target: `x + y = z` is `x + (y = z)`. */
  lemma BinaryOperandsBind(op: BinaryOp, l: Expr, r: Expr)
    requires Resolved(Binary(op, l, r))
    ensures l.Binary? ==> BinaryPrec(l.bop) >= BinaryPrec(op)
    ensures r.Binary? ==> BinaryPrec(r.bop) > BinaryPrec(op)
    ensures !l.Assignment? && !l.Conditional? && !r.Conditional?
    ensures r.Assignment? ==> AssignableTarget(r.left) && LeftEdgeAtLeast(r.left, BinaryPrec(op) + 1)
  {
    var e := Binary(op, l, r);
    assert RightEdgeBelow(LeftChild(e), RulePrec(RuleOf(e)));
    assert Fits(RightChild(e), Threshold(RuleOf(e)), false);
    assert Threshold(RuleOf(e)) == BinaryPrec(op) + 1;
  }

  /** The left operand of a resolved assignment is one of the allowed target
      kinds, so never itself an assignment, a conditional or a binary
      expression. */
  lemma AssignmentOperands(op: AssignOp, l: Expr, r: Expr)
    requires Resolved(Assignment(op, l, r))
    ensures AssignableTarget(l) && !l.Assignment? && !l.Conditional? && !l.Binary?
  {
  }

  /** Everything the parser returns obeys both rules above. */
  lemma ParsedOperandsBind(ts: seq<Token>)
    requires Parse(ts).Ok?
    ensures var e := Parse(ts).value;
      (e.Binary? && e.left.Binary? ==> BinaryPrec(e.left.bop) >= BinaryPrec(e.bop)) &&
      (e.Binary? && e.right.Binary? ==> BinaryPrec(e.right.bop) > BinaryPrec(e.bop)) &&
      (e.Assignment? ==> AssignableTarget(e.left))
  {
    ParseSound(ts);
    var e := Parse(ts).value;
    if e.Binary? {
      BinaryOperandsBind(e.bop, e.left, e.right);
    }
  }

  // ---------------------------------------------------------------------------
  // Two operators between three names: the grouping of every such sequence.

  /** The tokens `x o1 y o2 z`. */
  function TwoBinaryTokens(x: string, o1: BinaryOp, y: string, o2: BinaryOp, z: string): seq<Token> {
    [Ident(x), Sym(BinaryPunct(o1)), Ident(y), Sym(BinaryPunct(o2)), Ident(z)]
  }

  lemma BinaryPrints(x: string, o1: BinaryOp, y: string, o2: BinaryOp, z: string)
    ensures Print(Binary(o2, Binary(o1, Identifier(x), Identifier(y)), Identifier(z))) == TwoBinaryTokens(x, o1, y, o2, z)
    ensures Print(Binary(o1, Identifier(x), Binary(o2, Identifier(y), Identifier(z)))) == TwoBinaryTokens(x, o1, y, o2, z)
  {
    var X, Y, Z := Identifier(x), Identifier(y), Identifier(z);
    assert Print(Binary(o1, X, Y)) == [Ident(x), Sym(BinaryPunct(o1)), Ident(y)];
    assert Print(Binary(o2, Y, Z)) == [Ident(y), Sym(BinaryPunct(o2)), Ident(z)];
  }

  lemma GroupsLeft(x: string, o1: BinaryOp, y: string, o2: BinaryOp, z: string)
    requires BinaryPrec(o1) >= BinaryPrec(o2)
    ensures Parse(TwoBinaryTokens(x, o1, y, o2, z)) == Ok(Binary(o2, Binary(o1, Identifier(x), Identifier(y)), Identifier(z)))
  {
    var X, Y, Z := Identifier(x), Identifier(y), Identifier(z);
    assert Resolved(X) && Resolved(Y) && Resolved(Z);
    BinaryPrints(x, o1, y, o2, z);
    var inner := Binary(o1, X, Y);
    assert Resolved(inner);
    assert RightEdgeBelow(inner, BinaryPrec(o2));
    ParsePrintRoundTrip(Binary(o2, inner, Z));
  }

  lemma GroupsRight(x: string, o1: BinaryOp, y: string, o2: BinaryOp, z: string)
    requires BinaryPrec(o1) < BinaryPrec(o2)
    ensures Parse(TwoBinaryTokens(x, o1, y, o2, z)) == Ok(Binary(o1, Identifier(x), Binary(o2, Identifier(y), Identifier(z))))
  {
    var X, Y, Z := Identifier(x), Identifier(y), Identifier(z);
    assert Resolved(X) && Resolved(Y) && Resolved(Z);
    BinaryPrints(x, o1, y, o2, z);
    var inner := Binary(o2, Y, Z);
    assert Resolved(inner);
    assert LeftEdgeAtLeast(inner, BinaryPrec(o1) + 1);
    ParsePrintRoundTrip(Binary(o1, X, inner));
  }

  /** `x o1 y o2 z` groups to the left exactly when o1 binds at least as
      tightly as o2; otherwise the right pair is nested. */
  lemma TwoBinaryOperators(x: string, o1: BinaryOp, y: string, o2: BinaryOp, z: string)
    ensures BinaryPrec(o1) >= BinaryPrec(o2) ==>
      Parse(TwoBinaryTokens(x, o1, y, o2, z)) == Ok(Binary(o2, Binary(o1, Identifier(x), Identifier(y)), Identifier(z)))
    ensures BinaryPrec(o1) < BinaryPrec(o2) ==>
      Parse(TwoBinaryTokens(x, o1, y, o2, z)) == Ok(Binary(o1, Identifier(x), Binary(o2, Identifier(y), Identifier(z))))
  {
    if BinaryPrec(o1) >= BinaryPrec(o2) {
      GroupsLeft(x, o1, y, o2, z);
    } else {
      GroupsRight(x, o1, y, o2, z);
    }
  }

  /** `a + b * c` is `a + (b * c)`, `a < b == c` is `(a < b) == c`, and
      `a - b - c` is `(a - b) - c`, whatever the names. */
  lemma BinaryExamples(a: string, b: string, c: string)
    ensures Parse(TwoBinaryTokens(a, Add, b, Multiply, c))
      == Ok(Binary(Add, Identifier(a), Binary(Multiply, Identifier(b), Identifier(c))))
    ensures Parse(TwoBinaryTokens(a, Less, b, Equal, c))
      == Ok(Binary(Equal, Binary(Less, Identifier(a), Identifier(b)), Identifier(c)))
    ensures Parse(TwoBinaryTokens(a, Subtract, b, Subtract, c))
      == Ok(Binary(Subtract, Binary(Subtract, Identifier(a), Identifier(b)), Identifier(c)))
  {
    TwoBinaryOperators(a, Add, b, Multiply, c);
    TwoBinaryOperators(a, Less, b, Equal, c);
    TwoBinaryOperators(a, Subtract, b, Subtract, c);
  }

  /** `x = y = z`, with any two assignment operators, is `x = (y = z)`. */
  lemma AssignmentChainsRight(x: string, a1: AssignOp, y: string, a2: AssignOp, z: string)
    ensures Parse([Ident(x), Sym(AssignPunct(a1)), Ident(y), Sym(AssignPunct(a2)), Ident(z)])
      == Ok(Assignment(a1, Identifier(x), Assignment(a2, Identifier(y), Identifier(z))))
  {
    var X, Y, Z := Identifier(x), Identifier(y), Identifier(z);
    var inner := Assignment(a2, Y, Z);
    assert Resolved(X) && Resolved(Y) && Resolved(Z);
    assert Resolved(inner);
    assert LeftEdgeAtLeast(inner, ASSIGNMENT);
    assert Print(inner) == [Ident(y), Sym(AssignPunct(a2)), Ident(z)];
    var e := Assignment(a1, X, inner);
    assert Resolved(e);
    assert Print(e) == [Ident(x), Sym(AssignPunct(a1)), Ident(y), Sym(AssignPunct(a2)), Ident(z)];
    ParsePrintRoundTrip(e);
  }

  /** `-x++` (and the same with `!`, `~`, `+` or `--`) is `(-x)++`:
      unary_expression is `prec.left` at the level of update_expression, so
      the prefix operator is reduced before the postfix one is shifted. */
  lemma PrefixBeforePostfix(u: UnaryOp, x: string, d: UpdateOp)
    ensures Parse([Sym(UnaryPunct(u)), Ident(x), Sym(UpdatePunct(d))])
      == Ok(PostfixUpdate(d, Unary(u, Identifier(x))))
  {
    var X := Identifier(x);
    var inner := Unary(u, X);
    assert Resolved(X) && Resolved(inner);
    assert RightEdgeBelow(inner, UNARY);
    assert Print(inner) == [Sym(UnaryPunct(u)), Ident(x)];
    var e := PostfixUpdate(d, inner);
    assert Resolved(e);
    assert Print(e) == [Sym(UnaryPunct(u)), Ident(x), Sym(UpdatePunct(d))];
    ParsePrintRoundTrip(e);
  }

  /** `*p++` (and `&p++`, `*p--`) is `*(p++)`: pointer_expression sits at the
      cast level, below update_expression. */
  lemma PostfixBeforeDereference(q: PointerOp, x: string, d: UpdateOp)
    ensures Parse([Sym(PointerPunct(q)), Ident(x), Sym(UpdatePunct(d))])
      == Ok(Pointer(q, PostfixUpdate(d, Identifier(x))))
  {
    var X := Identifier(x);
    var inner := PostfixUpdate(d, X);
    assert Resolved(X) && Resolved(inner);
    assert LeftEdgeAtLeast(inner, CAST + 1);
    assert Print(inner) == [Ident(x), Sym(UpdatePunct(d))];
    var e := Pointer(q, inner);
    assert Resolved(e);
    assert Print(e) == [Sym(PointerPunct(q)), Ident(x), Sym(UpdatePunct(d))];
    ParsePrintRoundTrip(e);
  }

  /** `x o y = z` is `x o (y = z)` for every binary operator o: the
      assignment targets are inlined into assignment_expression, so nothing
      lets `=` follow `x o y` and the table shifts it after y; the other
      grouping is not resolved, a binary expression being no target. */
  lemma AssignmentAfterBinary(x: string, o: BinaryOp, y: string, a: AssignOp, z: string)
    ensures Parse([Ident(x), Sym(BinaryPunct(o)), Ident(y), Sym(AssignPunct(a)), Ident(z)])
      == Ok(Binary(o, Identifier(x), Assignment(a, Identifier(y), Identifier(z))))
    ensures !Resolved(Assignment(a, Binary(o, Identifier(x), Identifier(y)), Identifier(z)))
  {
    BinaryOverAssignment(x, o, y, a, z);
    ParsePrintRoundTrip(Binary(o, Identifier(x), Assignment(a, Identifier(y), Identifier(z))));
  }

  lemma BinaryOverAssignment(x: string, o: BinaryOp, y: string, a: AssignOp, z: string)
    ensures var e := Binary(o, Identifier(x), Assignment(a, Identifier(y), Identifier(z)));
      Resolved(e) && Print(e) == [Ident(x), Sym(BinaryPunct(o)), Ident(y), Sym(AssignPunct(a)), Ident(z)]
  {
    var inner := Assignment(a, Identifier(y), Identifier(z));
    var t := BinaryPrec(o) + 1;
    NameAssigned(y, a, z, t);
    var e := Binary(o, Identifier(x), inner);
    assert Threshold(RuleOf(e)) == t;
    assert Resolved(Identifier(x));
    assert Resolved(e);
    assert Print(e) == [Ident(x)] + ([Sym(BinaryPunct(o))] + Print(inner))
      == [Ident(x), Sym(BinaryPunct(o)), Ident(y), Sym(AssignPunct(a)), Ident(z)];
  }

  /** `x = y` is a resolved assignment that may stand where any level is
      expected outside a pointer operand. */
  lemma NameAssigned(x: string, a: AssignOp, y: string, t: int)
    ensures var e := Assignment(a, Identifier(x), Identifier(y));
      Resolved(e) && Fits(e, t, false) && Print(e) == [Ident(x), Sym(AssignPunct(a)), Ident(y)]
  {
    assert Resolved(Identifier(x)) && Resolved(Identifier(y));
  }

  /** `-x = y` (and the same with `!`, `~` or `+`) is `-(x = y)`: outside a
      pointer operand the assignment is shifted after its target. */
  lemma AssignmentUnderPrefix(u: UnaryOp, x: string, a: AssignOp, y: string)
    ensures Parse([Sym(UnaryPunct(u)), Ident(x), Sym(AssignPunct(a)), Ident(y)])
      == Ok(Unary(u, Assignment(a, Identifier(x), Identifier(y))))
  {
    var inner := Assignment(a, Identifier(x), Identifier(y));
    NameAssigned(x, a, y, UNARY + 1);
    var e := Unary(u, inner);
    assert Resolved(e);
    assert Print(e) == [Sym(UnaryPunct(u))] + Print(inner)
      == [Sym(UnaryPunct(u)), Ident(x), Sym(AssignPunct(a)), Ident(y)];
    ParsePrintRoundTrip(e);
  }

  /** `*x = y` (and `&x = y`) is `(*x) = y`: inside a pointer operand `=`
      reduces the operand and the pointer expression is the target. */
  lemma PointerIsTarget(q: PointerOp, x: string, a: AssignOp, y: string)
    ensures Parse([Sym(PointerPunct(q)), Ident(x), Sym(AssignPunct(a)), Ident(y)])
      == Ok(Assignment(a, Pointer(q, Identifier(x)), Identifier(y)))
    ensures !Resolved(Pointer(q, Assignment(a, Identifier(x), Identifier(y))))
  {
    DereferenceAssigned(q, x, a, y);
    ParsePrintRoundTrip(Assignment(a, Pointer(q, Identifier(x)), Identifier(y)));
  }

  /** `*-x = y` is `(*-x) = y`: the whole prefix chain under the pointer is
      reduced before `=`. */
  lemma PointerChainIsTarget(q: PointerOp, u: UnaryOp, x: string, a: AssignOp, y: string)
    ensures Parse([Sym(PointerPunct(q)), Sym(UnaryPunct(u)), Ident(x), Sym(AssignPunct(a)), Ident(y)])
      == Ok(Assignment(a, Pointer(q, Unary(u, Identifier(x))), Identifier(y)))
  {
    var target := Pointer(q, Unary(u, Identifier(x)));
    PointerChain(q, u, x);
    var e := Assignment(a, target, Identifier(y));
    assert Resolved(Identifier(y));
    assert Resolved(e);
    assert Print(e) == Print(target) + ([Sym(AssignPunct(a))] + [Ident(y)])
      == [Sym(PointerPunct(q)), Sym(UnaryPunct(u)), Ident(x), Sym(AssignPunct(a)), Ident(y)];
    ParsePrintRoundTrip(e);
  }

  /** `*-x` is a resolved target whose chain ends in no assignment. */
  lemma PointerChain(q: PointerOp, u: UnaryOp, x: string)
    ensures var e := Pointer(q, Unary(u, Identifier(x)));
      Resolved(e) && RightEdgeBelow(e, ASSIGNMENT)
      && Print(e) == [Sym(PointerPunct(q)), Sym(UnaryPunct(u)), Ident(x)]
  {
    var neg := Unary(u, Identifier(x));
    assert Resolved(Identifier(x));
    assert Resolved(neg) && ChainFree(neg);
    assert Print(neg) == [Sym(UnaryPunct(u)), Ident(x)];
  }

  /** `-*x = y` is `-((*x) = y)`: a prefix operator above the pointer does not
      take part in the pointer operand's chain. */
  lemma PointerTargetUnderPrefix(q: PointerOp, u: UnaryOp, x: string, a: AssignOp, y: string)
    ensures Parse([Sym(UnaryPunct(u)), Sym(PointerPunct(q)), Ident(x), Sym(AssignPunct(a)), Ident(y)])
      == Ok(Unary(u, Assignment(a, Pointer(q, Identifier(x)), Identifier(y))))
  {
    var inner := Assignment(a, Pointer(q, Identifier(x)), Identifier(y));
    DereferenceAssigned(q, x, a, y);
    var e := Unary(u, inner);
    assert Resolved(e);
    assert Print(e) == [Sym(UnaryPunct(u))] + Print(inner)
      == [Sym(UnaryPunct(u)), Sym(PointerPunct(q)), Ident(x), Sym(AssignPunct(a)), Ident(y)];
    ParsePrintRoundTrip(e);
  }

  /** `*x = y` is a resolved assignment that fits under any prefix operator. */
  lemma DereferenceAssigned(q: PointerOp, x: string, a: AssignOp, y: string)
    ensures var e := Assignment(a, Pointer(q, Identifier(x)), Identifier(y));
      Resolved(e) && Fits(e, UNARY + 1, false)
      && Print(e) == [Sym(PointerPunct(q)), Ident(x), Sym(AssignPunct(a)), Ident(y)]
  {
    var X, Y := Identifier(x), Identifier(y);
    assert Resolved(X) && Resolved(Y);
    var deref := Pointer(q, X);
    assert Resolved(deref);
    assert RightEdgeBelow(deref, ASSIGNMENT);
    assert Print(deref) == [Sym(PointerPunct(q)), Ident(x)];
  }

  /** `c ? m : x = y` is `c ? m : (x = y)`. */
  lemma AssignmentInAlternative(c: string, m: string, x: string, a: AssignOp, y: string)
    ensures Parse([Ident(c), Sym(Question), Ident(m), Sym(Colon), Ident(x), Sym(AssignPunct(a)), Ident(y)])
      == Ok(Conditional(Identifier(c), Some(Identifier(m)), Assignment(a, Identifier(x), Identifier(y))))
  {
    var C, M := Identifier(c), Identifier(m);
    var alt := Assignment(a, Identifier(x), Identifier(y));
    NameAssigned(x, a, y, CONDITIONAL);
    assert Resolved(C) && Resolved(M);
    var e := Conditional(C, Some(M), alt);
    assert Resolved(e);
    assert OptionalPrint(Some(M)) == [Ident(m)];
    assert Print(e) == [Ident(c)] + ([Sym(Question)] + ([Ident(m)] + ([Sym(Colon)] + Print(alt))))
      == [Ident(c), Sym(Question), Ident(m), Sym(Colon), Ident(x), Sym(AssignPunct(a)), Ident(y)];
    ParsePrintRoundTrip(e);
  }

  // ---------------------------------------------------------------------------
  // `sizeof ( T )` followed by more tokens.

  /** `sizeof (T) x` is `sizeof ((T) x)`: a name cannot continue an
      expression, so nothing is reduced after `sizeof ( T )` and the name is
      shifted as the operand of a cast. */
  lemma SizeofOfCast(ty: string, x: string)
    ensures Parse([SizeofKw, Sym(LParen), TypeName(ty), Sym(RParen), Ident(x)])
      == Ok(SizeofExpr(Cast(ty, Identifier(x))))
  {
    var c := Cast(ty, Identifier(x));
    assert Resolved(Identifier(x));
    assert Resolved(c);
    var e := SizeofExpr(c);
    assert Print(c) == [Sym(LParen), TypeName(ty), Sym(RParen), Ident(x)];
    assert OpensOnly(Print(Identifier(x)));
    assert Resolved(e);
    assert Print(e) == [SizeofKw] + Print(c)
      == [SizeofKw, Sym(LParen), TypeName(ty), Sym(RParen), Ident(x)];
    ParsePrintRoundTrip(e);
  }

  /** `sizeof (T) - x` is `sizeof (T)` minus x: `-` can continue an
      expression, and SIZEOF binds tighter than CAST, so `sizeof ( T )` is
      reduced first; the cast reading is not a resolved tree. */
  lemma SizeofTypeMinus(ty: string, x: string)
    ensures Parse([SizeofKw, Sym(LParen), TypeName(ty), Sym(RParen), Sym(BinaryPunct(Subtract)), Ident(x)])
      == Ok(Binary(Subtract, SizeofType(ty), Identifier(x)))
    ensures !Resolved(SizeofExpr(Cast(ty, Unary(Negate, Identifier(x)))))
  {
    var e := Binary(Subtract, SizeofType(ty), Identifier(x));
    assert Resolved(SizeofType(ty)) && Resolved(Identifier(x));
    assert Resolved(e);
    assert Print(e) == [SizeofKw, Sym(LParen), TypeName(ty), Sym(RParen)] + ([Sym(BinaryPunct(Subtract))] + [Ident(x)])
      == [SizeofKw, Sym(LParen), TypeName(ty), Sym(RParen), Sym(BinaryPunct(Subtract)), Ident(x)];
    ParsePrintRoundTrip(e);
    assert Print(Unary(Negate, Identifier(x)))[0] == Sym(BinaryPunct(Subtract));
  }
}
