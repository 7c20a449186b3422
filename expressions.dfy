/** Expression trees of the C grammar, the precedence and associativity each
    rule is declared with, and the predicate saying that a tree is the one the
    declared precedences select among all trees with the same tokens. */
module Expressions {
  import opened Wrappers
  import opened Precedence
  import opened Tokens

  datatype Expr =
    | Identifier(name: string)
    | Literal(kind: LiteralKind, text: string)
    | Parenthesized(inner: Expr)
    | Unary(uop: UnaryOp, arg: Expr)
    | Pointer(pop: PointerOp, arg: Expr)
    | PrefixUpdate(upop: UpdateOp, arg: Expr)
    | PostfixUpdate(upop: UpdateOp, arg: Expr)
    | Cast(typeName: string, arg: Expr)
    | SizeofExpr(arg: Expr)
    | SizeofType(typeName: string)
    | Binary(bop: BinaryOp, left: Expr, right: Expr)
    | Assignment(aop: AssignOp, left: Expr, right: Expr)
    | Conditional(condition: Expr, consequence: Option<Expr>, alternative: Expr)
    | Call(callee: Expr, args: seq<Expr>)
    | Subscript(arg: Expr, index: Expr)
    | Field(arg: Expr, fop: FieldOp, member: string)

  /** The grammar rule a node is built by; the prefix and postfix forms of
      update_expression are one rule. */
  datatype Rule =
    | BinaryRule(op: BinaryOp)
    | AssignmentRule | ConditionalRule
    | UnaryRule | PointerRule | UpdateRule | CastRule | SizeofRule
    | CallRule | FieldRule | SubscriptRule
    | PrimaryRule

  function RuleOf(e: Expr): Rule {
    match e
    case Binary(op, _, _) => BinaryRule(op)
    case Assignment(_, _, _) => AssignmentRule
    case Conditional(_, _, _) => ConditionalRule
    case Unary(_, _) => UnaryRule
    case Pointer(_, _) => PointerRule
    case PrefixUpdate(_, _) => UpdateRule
    case PostfixUpdate(_, _) => UpdateRule
    case Cast(_, _) => CastRule
    case SizeofExpr(_) => SizeofRule
    case SizeofType(_) => SizeofRule
    case Call(_, _) => CallRule
    case Field(_, _, _) => FieldRule
    case Subscript(_, _) => SubscriptRule
    case _ => PrimaryRule
  }

  /** The level each rule's `prec` wrapper gives it. */
  function RulePrec(r: Rule): int {
    match r
    case BinaryRule(op) => BinaryPrec(op)
    case AssignmentRule => ASSIGNMENT
    case ConditionalRule => CONDITIONAL
    case UnaryRule => UNARY
    case PointerRule => CAST
    case UpdateRule => UNARY
    case CastRule => CAST
    case SizeofRule => SIZEOF
    case CallRule => CALL
    case FieldRule => FIELD
    case SubscriptRule => SUBSCRIPT
    case PrimaryRule => DEFAULT
  }

  /** `prec.left`, `prec.right` or plain `prec`. */
  function RuleAssoc(r: Rule): Assoc {
    match r
    case BinaryRule(_) => Left
    case AssignmentRule => Right
    case ConditionalRule => Right
    case UnaryRule => Left
    case PointerRule => Left
    case UpdateRule => Right
    case _ => NonAssoc
  }

  /** Rules whose right-hand side starts with an expression. */
  predicate RuleLeftOpen(r: Rule) {
    r.BinaryRule? || r == AssignmentRule || r == ConditionalRule || r == UpdateRule
    || r == CallRule || r == FieldRule || r == SubscriptRule
  }

  /** Rules whose right-hand side ends with an expression. */
  predicate RuleRightOpen(r: Rule) {
    r.BinaryRule? || r == AssignmentRule || r == ConditionalRule || r == UnaryRule
    || r == PointerRule || r == UpdateRule || r == CastRule || r == SizeofRule
  }

  /** How a generated LR table settles the conflict between reducing a complete
      right-open node of rule u and shifting the operator of a left-open rule v:
      the higher level wins; on a tie, a left-associative u is reduced and a
      right-associative u lets the operator be shifted. */
  predicate ReduceFirst(u: Rule, v: Rule) {
    RulePrec(u) > RulePrec(v) || (RulePrec(u) == RulePrec(v) && RuleAssoc(u) == Left)
  }

  predicate ShiftFirst(u: Rule, v: Rule) {
    RulePrec(v) > RulePrec(u) || (RulePrec(u) == RulePrec(v) && RuleAssoc(u) == Right)
  }

  /** The least level an operator must have to be shifted past a complete
      right-open node of rule u. */
  function Threshold(u: Rule): int {
    if RuleAssoc(u) == Right then RulePrec(u) else RulePrec(u) + 1
  }

  /** Every shift/reduce conflict between a right-open and a left-open rule is
      settled by the table (no tie meets a plain `prec`), and Threshold is the
      whole of the rule. */
  lemma ThresholdDecides(u: Rule, v: Rule)
    requires RuleRightOpen(u) && RuleLeftOpen(v)
    ensures ReduceFirst(u, v) != ShiftFirst(u, v)
    ensures ShiftFirst(u, v) <==> RulePrec(v) >= Threshold(u)
  {
  }

  predicate LeftOpen(e: Expr) {
    e.Binary? || e.Assignment? || e.Conditional? || e.PostfixUpdate?
    || e.Call? || e.Subscript? || e.Field?
  }

  predicate RightOpen(e: Expr) {
    e.Binary? || e.Assignment? || e.Conditional? || e.Unary?
    || e.Pointer? || e.PrefixUpdate? || e.Cast? || e.SizeofExpr?
  }

  /** The expression a left-open node starts with. */
  function LeftChild(e: Expr): (c: Expr)
    requires LeftOpen(e)
    ensures c < e && Size(c) < Size(e)
  {
    match e
    case Binary(_, l, _) => l
    case Assignment(_, l, _) => l
    case Conditional(c, _, _) => c
    case PostfixUpdate(_, a) => a
    case Call(f, _) => f
    case Subscript(a, _) => a
    case Field(a, _, _) => a
  }

  /** The expression a right-open node ends with. */
  function RightChild(e: Expr): (c: Expr)
    requires RightOpen(e)
    ensures c < e && Size(c) < Size(e)
  {
    match e
    case Binary(_, _, r) => r
    case Assignment(_, _, r) => r
    case Conditional(_, _, alt) => alt
    case Unary(_, a) => a
    case Pointer(_, a) => a
    case PrefixUpdate(_, a) => a
    case Cast(_, a) => a
    case SizeofExpr(a) => a
  }

  function Size(e: Expr): (n: nat)
    ensures n >= 1
  {
    match e
    case Identifier(_) => 1
    case Literal(_, _) => 1
    case SizeofType(_) => 1
    case Parenthesized(i) => 1 + Size(i)
    case Unary(_, a) => 1 + Size(a)
    case Pointer(_, a) => 1 + Size(a)
    case PrefixUpdate(_, a) => 1 + Size(a)
    case PostfixUpdate(_, a) => 1 + Size(a)
    case Cast(_, a) => 1 + Size(a)
    case SizeofExpr(a) => 1 + Size(a)
    case Binary(_, l, r) => 1 + Size(l) + Size(r)
    case Assignment(_, l, r) => 1 + Size(l) + Size(r)
    case Conditional(c, cons, alt) =>
      1 + Size(c) + (match cons case Some(m) => Size(m) case None => 0) + Size(alt)
    case Call(f, args) => 1 + Size(f) + ArgsSize(args)
    case Subscript(a, i) => 1 + Size(a) + Size(i)
    case Field(a, _, _) => 1 + Size(a)
  }

  function ArgsSize(args: seq<Expr>): nat {
    if args == [] then 0 else Size(args[0]) + ArgsSize(args[1..])
  }

  /** Every left-open node down the left edge of e binds at level t or tighter. */
  predicate LeftEdgeAtLeast(e: Expr, t: int)
    decreases e
  {
    LeftOpen(e) ==> RulePrec(RuleOf(e)) >= t && LeftEdgeAtLeast(LeftChild(e), t)
  }

  /** An operator of level p arriving after e is shifted past no right-open
      node on the right edge of e. */
  predicate RightEdgeBelow(e: Expr, p: int)
    decreases e
  {
    RightOpen(e) ==> p < Threshold(RuleOf(e)) && RightEdgeBelow(RightChild(e), p)
  }

  /** The targets _assignment_left_expression allows. */
  predicate AssignableTarget(e: Expr) {
    e.Identifier? || e.Call? || e.Field? || e.Pointer? || e.Subscript? || e.Parenthesized?
  }

  /** e may stand where an expression of level t is expected: every operator
      on its left edge reaches level t, or, outside a pointer operand, e is an
      assignment to such a tree. The assignment targets are inlined into
      assignment_expression, so the table lets `=` follow a complete operand
      only inside a pointer operand; everywhere else there is no conflict, and
      `=` after a target is shifted whatever the level of the open nodes. */
  predicate Fits(e: Expr, t: int, inPointer: bool) {
    LeftEdgeAtLeast(e, t) || (!inPointer && e.Assignment? && LeftEdgeAtLeast(e.left, t))
  }

  /** No assignment ends the chain of prefix operators e starts with. Inside a
      pointer operand, `=` after a complete operand reduces that whole chain up
      to the pointer, which becomes the target. */
  predicate ChainFree(e: Expr)
    decreases e
  {
    match e
    case Assignment(_, _, _) => false
    case Unary(_, a) => ChainFree(a)
    case Pointer(_, a) => ChainFree(a)
    case PrefixUpdate(_, a) => ChainFree(a)
    case Cast(_, a) => ChainFree(a)
    case SizeofExpr(a) => ChainFree(a)
    case _ => true
  }

  /** e is the tree the declared precedences select: at every left-open node the
      right edge of its left child was reduced before its operator, at every
      right-open node the operand fits the node's threshold, the operand of a
      pointer ends in no assignment, assignment targets are of the allowed
      kinds, and the operand of `sizeof` is a cast `( T ) x` only when the
      first token of x can start an expression but not continue one, so that
      after `sizeof ( T )` the table has nothing to reduce. */
  predicate Resolved(e: Expr)
    decreases e
  {
    (LeftOpen(e) ==> RightEdgeBelow(LeftChild(e), RulePrec(RuleOf(e))))
    && (RightOpen(e) ==> Fits(RightChild(e), Threshold(RuleOf(e)), e.Pointer?))
    && match e
       case Identifier(_) => true
       case Literal(_, _) => true
       case SizeofType(_) => true
       case Parenthesized(i) => Resolved(i)
       case Unary(_, a) => Resolved(a)
       case Pointer(_, a) => ChainFree(a) && Resolved(a)
       case PrefixUpdate(_, a) => Resolved(a)
       case PostfixUpdate(_, a) => Resolved(a)
       case Cast(_, a) => Resolved(a)
       case SizeofExpr(a) => (a.Cast? ==> OpensOnly(Print(a.arg))) && Resolved(a)
       case Binary(_, l, r) => Resolved(l) && Resolved(r)
       case Assignment(_, l, r) => AssignableTarget(l) && Resolved(l) && Resolved(r)
       case Conditional(c, cons, alt) =>
         Resolved(c) && (match cons case Some(m) => Resolved(m) case None => true) && Resolved(alt)
       case Call(f, args) => Resolved(f) && forall i | 0 <= i < |args| :: Resolved(args[i])
       case Subscript(a, i) => Resolved(a) && Resolved(i)
       case Field(a, _, _) => Resolved(a)
  }

  /** The tokens of an expression, in source order. */
  function Print(e: Expr): (r: seq<Token>)
    ensures |r| > 0 && StartsExpression(r[0])
  {
    match e
    case Identifier(n) => [Ident(n)]
    case Literal(k, s) => [Lit(k, s)]
    case Parenthesized(i) => [Sym(LParen)] + (Print(i) + [Sym(RParen)])
    case Unary(op, a) => [Sym(UnaryPunct(op))] + Print(a)
    case Pointer(op, a) => [Sym(PointerPunct(op))] + Print(a)
    case PrefixUpdate(op, a) => [Sym(UpdatePunct(op))] + Print(a)
    case PostfixUpdate(op, a) => Print(a) + [Sym(UpdatePunct(op))]
    case Cast(ty, a) => [Sym(LParen), TypeName(ty), Sym(RParen)] + Print(a)
    case SizeofExpr(a) => [SizeofKw] + Print(a)
    case SizeofType(ty) => [SizeofKw, Sym(LParen), TypeName(ty), Sym(RParen)]
    case Binary(op, l, r) => Print(l) + ([Sym(BinaryPunct(op))] + Print(r))
    case Assignment(op, l, r) => Print(l) + ([Sym(AssignPunct(op))] + Print(r))
    case Conditional(c, cons, alt) =>
      Print(c) + ([Sym(Question)] + (OptionalPrint(cons) + ([Sym(Colon)] + Print(alt))))
    case Call(f, args) => Print(f) + ([Sym(LParen)] + (PrintArgs(args) + [Sym(RParen)]))
    case Subscript(a, i) => Print(a) + ([Sym(LBracket)] + (Print(i) + [Sym(RBracket)]))
    case Field(a, op, m) => Print(a) + [Sym(FieldPunct(op)), Ident(m)]
  }

  /** The tokens of a conditional's consequence, which may be absent. */
  function OptionalPrint(m: Option<Expr>): seq<Token> {
    match m
    case Some(c) => Print(c)
    case None => []
  }

  /** An argument_list body: the arguments separated by commas. */
  function PrintArgs(args: seq<Expr>): (r: seq<Token>)
    ensures args == [] <==> r == []
    ensures args != [] ==> StartsExpression(r[0])
  {
    if args == [] then []
    else if |args| == 1 then Print(args[0])
    else Print(args[0]) + ([Sym(Comma)] + PrintArgs(args[1..]))
  }

  /** The rule a token starts when it follows a complete expression. */
  function TailRule(tok: Token): (r: Option<Rule>)
    ensures r.Some? ==> RuleLeftOpen(r.value)
  {
    match tok
    case Sym(BinaryPunct(op)) => Some(BinaryRule(op))
    case Sym(AssignPunct(_)) => Some(AssignmentRule)
    case Sym(Question) => Some(ConditionalRule)
    case Sym(PlusPlus) => Some(UpdateRule)
    case Sym(MinusMinus) => Some(UpdateRule)
    case Sym(LParen) => Some(CallRule)
    case Sym(LBracket) => Some(SubscriptRule)
    case Sym(DotPunct) => Some(FieldRule)
    case Sym(ArrowPunct) => Some(FieldRule)
    case _ => None
  }

  /** The level of the operator that the next token would continue an
      expression with, if it is one. */
  function NextPrec(ts: seq<Token>): Option<int> {
    if ts == [] then None
    else match TailRule(ts[0])
      case Some(r) => Some(RulePrec(r))
      case None => None
  }

  /** The next token is an assignment operator. */
  predicate AssignNext(ts: seq<Token>) {
    ts != [] && TailRule(ts[0]) == Some(AssignmentRule)
  }

  /** An assignment operator arriving after e is shifted inside e: some target
      on the right edge of e is not in a pointer operand's prefix chain
      (inPointer says whether e itself stands in one). */
  predicate Captures(e: Expr, inPointer: bool)
    decreases e
  {
    RightOpen(e) && !e.Pointer? && (LeftOpen(e) || !inPointer)
    && (AssignableTarget(RightChild(e)) || Captures(RightChild(e), false))
  }

  /** The table shifts the assignment operator that follows the complete tree
      e even though its level is below the one e is parsed at. */
  predicate ShiftsAssignment(e: Expr, ts: seq<Token>, inPointer: bool) {
    !inPointer && AssignNext(ts) && AssignableTarget(e)
  }

  /** What follows e may be appended to e without reaching inside it. */
  predicate Follows(e: Expr, rest: seq<Token>, inPointer: bool) {
    match NextPrec(rest)
    case Some(p) => RightEdgeBelow(e, p) && (AssignNext(rest) ==> !Captures(e, inPointer))
    case None => true
  }

  /** What follows an expression parsed at level t does not continue it. */
  predicate Closes(rest: seq<Token>, t: int) {
    match NextPrec(rest)
    case Some(p) => p < t
    case None => true
  }

  /** ts starts with a token that can start an expression but not continue
      one (a name, a literal, `!`, `~` or `sizeof`): after a complete
      expression no rule accepts it. */
  predicate OpensOnly(ts: seq<Token>) {
    ts != [] && StartsExpression(ts[0]) && TailRule(ts[0]).None?
  }

  /** What follows e, parsed at level t, neither continues it at level t nor
      is an assignment the table shifts after it, and is no token that only
      starts an expression. */
  predicate Stops(e: Expr, rest: seq<Token>, t: int, inPointer: bool) {
    Closes(rest, t) && !ShiftsAssignment(e, rest, inPointer) && !OpensOnly(rest)
  }
}
