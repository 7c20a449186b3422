/** The expressions of `#if` and `#elif` lines: a restricted grammar of its
    own (identifiers, calls of named macros, number and character literals,
    `defined`, the four prefix operators `! ~ - +`, the eighteen binary
    operators and parentheses), parsed with the preprocessor's own operator
    table. That table gives every operator the level BinaryPrec gives it
    (Precedence.PreprocTableMatchesBinaryTable), so the levels below are
    BinaryPrec's. */
module PreprocExpr {
  import opened Wrappers
  import opened Precedence
  import opened Tokens
  import opened SeqFacts

  datatype PExpr =
    | PIdent(name: string)
    | PNumber(text: string)
    | PChar(text: string)
    | PDefined(macro: string, parenthesized: bool)
    | PCall(callee: string, args: seq<PExpr>)
    | PUnary(op: UnaryOp, arg: PExpr)
    | PBinary(bop: BinaryOp, left: PExpr, right: PExpr)
    | PParen(inner: PExpr)

  /** The least level an operator must have to be shifted past a complete
      preproc_unary_expression, which is `prec.left` at UNARY. */
  const UnaryThreshold: int := UNARY + 1

  /** The level a whole preprocessor expression is parsed at: every operator. */
  const PTop: int := LOGICAL_OR

  function Size(e: PExpr): (n: nat)
    ensures n >= 1
  {
    match e
    case PCall(_, args) => 1 + ArgsSize(args)
    case PUnary(_, a) => 1 + Size(a)
    case PBinary(_, l, r) => 1 + Size(l) + Size(r)
    case PParen(i) => 1 + Size(i)
    case _ => 1
  }

  function ArgsSize(args: seq<PExpr>): nat {
    if args == [] then 0 else Size(args[0]) + ArgsSize(args[1..])
  }

  /** Every binary node down the left edge of e binds at level t or tighter. */
  predicate LeftEdgeAtLeast(e: PExpr, t: int) {
    e.PBinary? ==> BinaryPrec(e.bop) >= t && LeftEdgeAtLeast(e.left, t)
  }

  /** An operator of level p arriving after e is shifted past no node on the
      right edge of e. */
  predicate RightEdgeBelow(e: PExpr, p: int) {
    match e
    case PBinary(op, _, r) => p < BinaryPrec(op) + 1 && RightEdgeBelow(r, p)
    case PUnary(_, a) => p < UnaryThreshold && RightEdgeBelow(a, p)
    case _ => true
  }

  /** e is the tree the declared precedences select among all trees with its
      tokens: binary operators are `prec.left` at their level and the unary
      rule is `prec.left` at UNARY. */
  predicate Resolved(e: PExpr) {
    match e
    case PCall(_, args) => forall i | 0 <= i < |args| :: Resolved(args[i])
    case PUnary(_, a) => LeftEdgeAtLeast(a, UnaryThreshold) && Resolved(a)
    case PBinary(op, l, r) =>
      RightEdgeBelow(l, BinaryPrec(op)) && LeftEdgeAtLeast(r, BinaryPrec(op) + 1)
      && Resolved(l) && Resolved(r)
    case PParen(i) => Resolved(i)
    case _ => true
  }

  /** The tokens a preprocessor expression can start with. */
  predicate StartsPExpr(t: Token) {
    match t
    case Ident(_) => true
    case Lit(k, _) => k != StringLiteral
    case DefinedKw => true
    case Sym(p) => p == LParen || UnaryOf(p).Some?
    case _ => false
  }

  function Print(e: PExpr): (r: seq<Token>)
    ensures |r| > 0 && StartsPExpr(r[0])
  {
    match e
    case PIdent(n) => [Ident(n)]
    case PNumber(s) => [Lit(NumberLiteral, s)]
    case PChar(s) => [Lit(CharLiteral, s)]
    case PDefined(n, paren) =>
      if paren then [DefinedKw, Sym(LParen), Ident(n), Sym(RParen)] else [DefinedKw, Ident(n)]
    case PCall(f, args) => [Ident(f)] + ([Sym(LParen)] + (PrintArgs(args) + [Sym(RParen)]))
    case PUnary(op, a) => [Sym(UnaryPunct(op))] + Print(a)
    case PBinary(op, l, r) => Print(l) + ([Sym(BinaryPunct(op))] + Print(r))
    case PParen(i) => [Sym(LParen)] + (Print(i) + [Sym(RParen)])
  }

  /** A preproc_argument_list body: commaSep of expressions. */
  function PrintArgs(args: seq<PExpr>): (r: seq<Token>)
    ensures args == [] <==> r == []
    ensures args != [] ==> StartsPExpr(r[0])
  {
    if args == [] then []
    else if |args| == 1 then Print(args[0])
    else Print(args[0]) + ([Sym(Comma)] + PrintArgs(args[1..]))
  }

  /** The level of the binary operator that the next token is, if it is one:
      the only way to continue a complete preprocessor expression. */
  function NextPrec(ts: seq<Token>): Option<int> {
    if ts != [] && ts[0].Sym? && ts[0].p.BinaryPunct? then Some(BinaryPrec(ts[0].p.op)) else None
  }

  predicate Follows(e: PExpr, rest: seq<Token>) {
    match NextPrec(rest)
    case Some(p) => RightEdgeBelow(e, p)
    case None => true
  }

  predicate Closes(rest: seq<Token>, t: int) {
    match NextPrec(rest)
    case Some(p) => p < t
    case None => true
  }

  /** An identifier followed by `(` is a call; what follows a printed
      expression never is. */
  predicate NotCalled(rest: seq<Token>) {
    rest == [] || rest[0] != Sym(LParen)
  }

  // ---------------------------------------------------------------------------
  // The parser.

  datatype PParsed = PParsed(expr: PExpr, rest: seq<Token>)
  datatype PParsedArgs = PParsedArgs(args: seq<PExpr>, rest: seq<Token>)

  /** A _preproc_expression whose binary operators bind at level t or tighter. */
  function ParseExpr(ts: seq<Token>, t: int): (r: Result<PParsed>)
    ensures r.Ok? ==> |r.value.rest| < |ts|
    decreases |ts|, 2
  {
    match ParsePrimary(ts)
    case Fail(n) => Fail(n)
    case Ok(h) => ParseTail(h.expr, h.rest, t)
  }

  /** Everything but a binary expression. */
  function ParsePrimary(ts: seq<Token>): (r: Result<PParsed>)
    ensures r.Ok? ==> |r.value.rest| < |ts|
    decreases |ts|, 1
  {
    if ts == [] then Fail(0)
    else match ts[0]
      case Ident(f) =>
        if |ts| >= 2 && ts[1] == Sym(LParen) then ParseCall(ts)
        else Ok(PParsed(PIdent(f), ts[1..]))
      case Lit(k, s) =>
        if k == NumberLiteral then Ok(PParsed(PNumber(s), ts[1..]))
        else if k == CharLiteral then Ok(PParsed(PChar(s), ts[1..]))
        else Fail(|ts|)
      case DefinedKw => ParseDefined(ts)
      case Sym(p) =>
        if p == LParen then ParseParen(ts)
        else if UnaryOf(p).Some? then ParseUnary(ts)
        else Fail(|ts|)
      case _ => Fail(|ts|)
  }

  /** A preproc_call_expression: a macro name and its argument list. */
  function ParseCall(ts: seq<Token>): (r: Result<PParsed>)
    requires |ts| >= 2 && ts[0].Ident?
    ensures r.Ok? ==> |r.value.rest| < |ts|
    decreases |ts|, 0
  {
    match ParseArgs(ts[2..])
    case Fail(n) => Fail(n)
    case Ok(a) => Ok(PParsed(PCall(ts[0].name, a.args), a.rest))
  }

  /** `defined ( NAME )` or `defined NAME`. */
  function ParseDefined(ts: seq<Token>): (r: Result<PParsed>)
    requires ts != []
    ensures r.Ok? ==> |r.value.rest| < |ts|
  {
    if |ts| >= 2 && ts[1] == Sym(LParen) then
      if |ts| >= 4 && ts[2].Ident? && ts[3] == Sym(RParen) then Ok(PParsed(PDefined(ts[2].name, true), ts[4..]))
      else Fail(|ts| - 2)
    else if |ts| >= 2 && ts[1].Ident? then Ok(PParsed(PDefined(ts[1].name, false), ts[2..]))
    else Fail(|ts| - 1)
  }

  function ParseParen(ts: seq<Token>): (r: Result<PParsed>)
    requires ts != []
    ensures r.Ok? ==> |r.value.rest| < |ts|
    decreases |ts|, 0
  {
    match ParseExpr(ts[1..], PTop)
    case Fail(n) => Fail(n)
    case Ok(a) =>
      if a.rest != [] && a.rest[0] == Sym(RParen) then Ok(PParsed(PParen(a.expr), a.rest[1..]))
      else Fail(|a.rest|)
  }

  /** A prefix operator and its operand, which no binary operator reaches into. */
  function ParseUnary(ts: seq<Token>): (r: Result<PParsed>)
    requires ts != [] && ts[0].Sym? && UnaryOf(ts[0].p).Some?
    ensures r.Ok? ==> |r.value.rest| < |ts|
    decreases |ts|, 0
  {
    match ParseExpr(ts[1..], UnaryThreshold)
    case Fail(n) => Fail(n)
    case Ok(a) => Ok(PParsed(PUnary(UnaryOf(ts[0].p).value, a.expr), a.rest))
  }

  /** Extends lhs with every binary operator of level t or tighter that
      follows it; the right operand of an operator of level p takes only
      operators above p. */
  function ParseTail(lhs: PExpr, ts: seq<Token>, t: int): (r: Result<PParsed>)
    ensures r.Ok? ==> |r.value.rest| <= |ts|
    decreases |ts|, 0
  {
    match NextPrec(ts)
    case Some(p) =>
      if p < t then Ok(PParsed(lhs, ts))
      else
        (match ParseExpr(ts[1..], p + 1)
         case Fail(n) => Fail(n)
         case Ok(b) => ParseTail(PBinary(ts[0].p.op, lhs, b.expr), b.rest, t))
    case None => Ok(PParsed(lhs, ts))
  }

  /** A preproc_argument_list after its `(`. */
  function ParseArgs(ts: seq<Token>): (r: Result<PParsedArgs>)
    ensures r.Ok? ==> |r.value.rest| < |ts|
    decreases |ts|, 4
  {
    if ts != [] && ts[0] == Sym(RParen) then Ok(PParsedArgs([], ts[1..]))
    else ParseArgList(ts)
  }

  function ParseArgList(ts: seq<Token>): (r: Result<PParsedArgs>)
    ensures r.Ok? ==> |r.value.rest| < |ts|
    decreases |ts|, 3
  {
    match ParseExpr(ts, PTop)
    case Fail(n) => Fail(n)
    case Ok(a) =>
      if a.rest != [] && a.rest[0] == Sym(RParen) then Ok(PParsedArgs([a.expr], a.rest[1..]))
      else if a.rest != [] && a.rest[0] == Sym(Comma) then
        match ParseArgList(a.rest[1..])
        case Fail(n) => Fail(n)
        case Ok(more) => Ok(PParsedArgs([a.expr] + more.args, more.rest))
      else Fail(|a.rest|)
  }

  /** The whole expression of a `#if` or `#elif` line. */
  function Parse(ts: seq<Token>): Result<PExpr> {
    match ParseExpr(ts, PTop)
    case Fail(n) => Fail(n)
    case Ok(p) => if p.rest == [] then Ok(p.expr) else Fail(|p.rest|)
  }

  // ---------------------------------------------------------------------------
  // Soundness.

  predicate ParsedAt(ts: seq<Token>, t: int, p: PParsed) {
    Print(p.expr) + p.rest == ts && Resolved(p.expr) && LeftEdgeAtLeast(p.expr, t)
    && Follows(p.expr, p.rest) && Closes(p.rest, t)
  }

  predicate PrimaryOk(ts: seq<Token>, p: PParsed) {
    Print(p.expr) + p.rest == ts && !p.expr.PBinary? && Resolved(p.expr) && Follows(p.expr, p.rest)
  }

  predicate TailOk(lhs: PExpr, ts: seq<Token>, t: int, p: PParsed) {
    Print(lhs) + ts == Print(p.expr) + p.rest && Closes(p.rest, t)
    && (LeftEdgeAtLeast(lhs, t) ==> LeftEdgeAtLeast(p.expr, t))
    && (Resolved(lhs) && Follows(lhs, ts) ==> Resolved(p.expr) && Follows(p.expr, p.rest))
  }

  predicate ArgsOk(ts: seq<Token>, p: PParsedArgs) {
    PrintArgs(p.args) + [Sym(RParen)] + p.rest == ts
    && forall i | 0 <= i < |p.args| :: Resolved(p.args[i])
  }

  lemma {:induction false} ExprSound(ts: seq<Token>, t: int)
    ensures ParseExpr(ts, t).Ok? ==> ParsedAt(ts, t, ParseExpr(ts, t).value)
    decreases |ts|, 2
  {
    PrimarySound(ts);
    match ParsePrimary(ts)
    case Fail(_) =>
    case Ok(h) =>
      TailSound(h.expr, h.rest, t);
      if ParseTail(h.expr, h.rest, t).Ok? {
        PrimaryThenTail(ts, t, h, ParseTail(h.expr, h.rest, t).value);
      }
  }

  lemma {:induction false} PrimarySound(ts: seq<Token>)
    ensures ParsePrimary(ts).Ok? ==> PrimaryOk(ts, ParsePrimary(ts).value)
    decreases |ts|, 1
  {
    if ts != [] {
      HeadTail(ts);
      match ts[0]
      case Ident(f) =>
        if |ts| >= 2 && ts[1] == Sym(LParen) {
          CallSound(ts);
        }
      case Lit(k, s) =>
      case DefinedKw => DefinedSound(ts);
      case Sym(p) =>
        if p == LParen {
          ParenSound(ts);
        } else if UnaryOf(p).Some? {
          UnarySound(ts);
        }
      case _ =>
    }
  }

  lemma {:induction false} CallSound(ts: seq<Token>)
    requires |ts| >= 2 && ts[0].Ident? && ts[1] == Sym(LParen)
    ensures ParseCall(ts).Ok? ==> PrimaryOk(ts, ParseCall(ts).value)
    decreases |ts|, 0
  {
    ArgsSound(ts[2..]);
    if ParseArgs(ts[2..]).Ok? {
      var a := ParseArgs(ts[2..]).value;
      FirstTwo(ts);
      assert ts[..2] == [ts[0], ts[1]];
      UnconsTwo(ts[0], ts[1], PrintArgs(a.args) + [Sym(RParen)], a.rest);
      CallBuilt(ts, a);
    }
  }

  lemma DefinedSound(ts: seq<Token>)
    requires ts != [] && ts[0] == DefinedKw
    ensures ParseDefined(ts).Ok? ==> PrimaryOk(ts, ParseDefined(ts).value)
  {
    if |ts| >= 2 && ts[1] == Sym(LParen) {
      if |ts| >= 4 && ts[2].Ident? && ts[3] == Sym(RParen) {
        assert ts == ts[..4] + ts[4..];
      }
    } else if |ts| >= 2 && ts[1].Ident? {
      FirstTwo(ts);
    }
  }

  lemma {:induction false} ParenSound(ts: seq<Token>)
    requires ts != [] && ts[0] == Sym(LParen)
    ensures ParseParen(ts).Ok? ==> PrimaryOk(ts, ParseParen(ts).value)
    decreases |ts|, 0
  {
    ExprSound(ts[1..], PTop);
    if ParseParen(ts).Ok? {
      var a := ParseExpr(ts[1..], PTop).value;
      HeadTail(ts);
      HeadTail(a.rest);
      TailOut3([Sym(LParen)], Print(a.expr), [Sym(RParen)], a.rest[1..]);
      AppendAssoc([Sym(LParen)], Print(a.expr) + [Sym(RParen)], a.rest[1..]);
    }
  }

  lemma {:induction false} UnarySound(ts: seq<Token>)
    requires ts != [] && ts[0].Sym? && UnaryOf(ts[0].p).Some?
    ensures ParseUnary(ts).Ok? ==> PrimaryOk(ts, ParseUnary(ts).value)
    decreases |ts|, 0
  {
    ExprSound(ts[1..], UnaryThreshold);
    if ParseUnary(ts).Ok? {
      var a := ParseExpr(ts[1..], UnaryThreshold).value;
      HeadTail(ts);
      AppendAssoc([ts[0]], Print(a.expr), a.rest);
    }
  }

  lemma {:induction false} TailSound(lhs: PExpr, ts: seq<Token>, t: int)
    ensures ParseTail(lhs, ts, t).Ok? ==> TailOk(lhs, ts, t, ParseTail(lhs, ts, t).value)
    decreases |ts|, 0
  {
    match NextPrec(ts)
    case Some(p) =>
      if p >= t {
        ExprSound(ts[1..], p + 1);
        match ParseExpr(ts[1..], p + 1)
        case Fail(_) =>
        case Ok(b) =>
          var e := PBinary(ts[0].p.op, lhs, b.expr);
          BinaryBuilt(lhs, ts, t, b);
          TailSound(e, b.rest, t);
      }
    case None =>
  }

  lemma {:induction false} ArgsSound(ts: seq<Token>)
    ensures ParseArgs(ts).Ok? ==> ArgsOk(ts, ParseArgs(ts).value)
    decreases |ts|, 4
  {
    if ts != [] && ts[0] == Sym(RParen) {
      HeadTail(ts);
      AppendEmpty([Sym(RParen)]);
    } else {
      ArgListSound(ts);
    }
  }

  lemma {:induction false} ArgListSound(ts: seq<Token>)
    ensures ParseArgList(ts).Ok? ==> ParseArgList(ts).value.args != [] && ArgsOk(ts, ParseArgList(ts).value)
    decreases |ts|, 3
  {
    ExprSound(ts, PTop);
    match ParseExpr(ts, PTop)
    case Fail(_) =>
    case Ok(a) =>
      if a.rest != [] && a.rest[0] == Sym(RParen) {
        LastArgBuilt(ts, a);
      } else if a.rest != [] && a.rest[0] == Sym(Comma) {
        ArgListSound(a.rest[1..]);
        if ParseArgList(a.rest[1..]).Ok? {
          MoreArgsBuilt(ts, a, ParseArgList(a.rest[1..]).value);
        }
      }
  }

  /** Whatever Parse accepts is the resolved tree whose tokens it was given. */
  lemma ParseSound(ts: seq<Token>)
    ensures Parse(ts).Ok? ==> Print(Parse(ts).value) == ts && Resolved(Parse(ts).value)
  {
    ExprSound(ts, PTop);
    if Parse(ts).Ok? {
      AppendEmpty(Print(Parse(ts).value));
    }
  }

  lemma PrimaryThenTail(ts: seq<Token>, t: int, h: PParsed, p: PParsed)
    requires PrimaryOk(ts, h) && TailOk(h.expr, h.rest, t, p)
    ensures ParsedAt(ts, t, p)
  {
  }

  /** One binary operator with lhs as its left operand and the parse b of the
      tokens after it, then the tail loop on the result. */
  lemma BinaryBuilt(lhs: PExpr, ts: seq<Token>, t: int, b: PParsed)
    requires NextPrec(ts).Some? && NextPrec(ts).value >= t
    requires ParsedAt(ts[1..], NextPrec(ts).value + 1, b)
    ensures var e := PBinary(ts[0].p.op, lhs, b.expr);
      (forall q | TailOk(e, b.rest, t, q) :: TailOk(lhs, ts, t, q))
  {
    var e := PBinary(ts[0].p.op, lhs, b.expr);
    HeadTail(ts);
    TailOut3(Print(lhs), [ts[0]], Print(b.expr), b.rest);
  }

  lemma CallBuilt(ts: seq<Token>, a: PParsedArgs)
    requires |ts| >= 2 && ts[0].Ident? && ts[1] == Sym(LParen)
    requires ArgsOk(ts[2..], a) && ts == [ts[0]] + ([ts[1]] + (PrintArgs(a.args) + [Sym(RParen)])) + a.rest
    ensures PrimaryOk(ts, PParsed(PCall(ts[0].name, a.args), a.rest))
  {
  }

  lemma LastArgBuilt(ts: seq<Token>, a: PParsed)
    requires ParsedAt(ts, PTop, a) && a.rest != [] && a.rest[0] == Sym(RParen)
    ensures ArgsOk(ts, PParsedArgs([a.expr], a.rest[1..]))
  {
    HeadTail(a.rest);
    JoinOut(Print(a.expr), [], [Sym(RParen)], a.rest[1..]);
    AppendEmpty(Print(a.expr));
    AppendAssoc(Print(a.expr), [Sym(RParen)], a.rest[1..]);
  }

  lemma MoreArgsBuilt(ts: seq<Token>, a: PParsed, more: PParsedArgs)
    requires ParsedAt(ts, PTop, a) && a.rest != [] && a.rest[0] == Sym(Comma)
    requires more.args != [] && ArgsOk(a.rest[1..], more)
    ensures ArgsOk(ts, PParsedArgs([a.expr] + more.args, more.rest))
  {
    var args := [a.expr] + more.args;
    assert args[0] == a.expr && args[1..] == more.args;
    HeadTail(a.rest);
    Regroup(Print(a.expr), [Sym(Comma)], PrintArgs(more.args), [Sym(RParen)], more.rest);
    forall i | 0 <= i < |args| ensures Resolved(args[i]) {
      if i > 0 { assert args[i] == more.args[i - 1]; }
    }
  }

  // ---------------------------------------------------------------------------
  // Parsing what was printed.

  /** The leftmost operand that is not a binary expression. */
  function Head(e: PExpr): (h: PExpr)
    ensures !h.PBinary? && Size(h) <= Size(e)
  {
    if e.PBinary? then Head(e.left) else e
  }

  /** The tokens of a binary node after its left operand. */
  function OperatorPart(e: PExpr): seq<Token>
    requires e.PBinary?
  {
    [Sym(BinaryPunct(e.bop))] + Print(e.right)
  }

  function AfterHead(e: PExpr): seq<Token> {
    if e.PBinary? then AfterHead(e.left) + OperatorPart(e) else []
  }

  lemma {:induction false} HeadSplits(e: PExpr)
    ensures Print(e) == Print(Head(e)) + AfterHead(e)
  {
    if e.PBinary? {
      HeadSplits(e.left);
      Chain(Print(e), Print(e.left), OperatorPart(e), Print(Head(e.left)), AfterHead(e.left));
    } else {
      AppendEmpty(Print(e));
    }
  }

  /** The head of a resolved tree is resolved, and the rest of the tree's
      tokens follow it. */
  lemma {:induction false} HeadFollows(e: PExpr, rest: seq<Token>)
    requires Resolved(e) && Follows(e, rest) && NotCalled(rest)
    ensures Resolved(Head(e)) && Follows(Head(e), AfterHead(e) + rest) && NotCalled(AfterHead(e) + rest)
  {
    if e.PBinary? {
      var more := OperatorPart(e) + rest;
      Uncons(Sym(BinaryPunct(e.bop)), Print(e.right), rest);
      HeadFollows(e.left, more);
      AppendAssoc(AfterHead(e.left), OperatorPart(e), rest);
    } else {
      AppendEmpty(rest);
    }
  }

  /** Parsing the tokens of a resolved e, followed by tokens that do not
      continue it at level t, yields e. */
  lemma {:induction false} ExprInverse(e: PExpr, rest: seq<Token>, t: int)
    requires Resolved(e) && LeftEdgeAtLeast(e, t) && Follows(e, rest) && Closes(rest, t) && NotCalled(rest)
    ensures ParseExpr(Print(e) + rest, t) == Ok(PParsed(e, rest))
    decreases Size(e), 5
  {
    var h := Head(e);
    HeadSplits(e);
    AppendAssoc(Print(h), AfterHead(e), rest);
    HeadFollows(e, rest);
    PrimaryInverse(h, AfterHead(e) + rest);
    TailSteps(e, rest, t);
  }

  lemma {:induction false} PrimaryInverse(h: PExpr, rest: seq<Token>)
    requires !h.PBinary? && Resolved(h) && Follows(h, rest) && NotCalled(rest)
    ensures ParsePrimary(Print(h) + rest) == Ok(PParsed(h, rest))
    decreases Size(h), 4
  {
    match h
    case PCall(_, _) => CallInverse(h, rest);
    case PUnary(op, a) =>
      PrefixPunctsRecognised(op, Dereference, Increment);
      Uncons(Sym(UnaryPunct(op)), Print(a), rest);
      ExprInverse(a, rest, UnaryThreshold);
    case PParen(i) => ParenInverse(h, rest);
    case _ => AtomInverse(h, rest);
  }

  lemma AtomInverse(h: PExpr, rest: seq<Token>)
    requires h.PIdent? || h.PNumber? || h.PChar? || h.PDefined?
    requires NotCalled(rest)
    ensures ParsePrimary(Print(h) + rest) == Ok(PParsed(h, rest))
  {
    var p := Print(h);
    DropLeft(p, rest);
    IndexLeft(p, rest, 0);
    if |p| >= 2 {
      IndexLeft(p, rest, 1);
    } else if rest != [] {
      assert (p + rest)[1] == rest[0];
    }
    if |p| == 4 {
      IndexLeft(p, rest, 2);
      IndexLeft(p, rest, 3);
    }
  }

  lemma {:induction false} ParenInverse(h: PExpr, rest: seq<Token>)
    requires h.PParen? && Resolved(h)
    ensures ParsePrimary(Print(h) + rest) == Ok(PParsed(h, rest))
    decreases Size(h), 3
  {
    var i := h.inner;
    var tail := [Sym(RParen)] + rest;
    Uncons(Sym(LParen), Print(i) + [Sym(RParen)], rest);
    AppendAssoc(Print(i), [Sym(RParen)], rest);
    Uncons1(Sym(RParen), rest);
    AnyAtTop(i);
    ExprInverse(i, tail, PTop);
  }

  lemma {:induction false} CallInverse(h: PExpr, rest: seq<Token>)
    requires h.PCall? && Resolved(h)
    ensures ParsePrimary(Print(h) + rest) == Ok(PParsed(h, rest))
    decreases Size(h), 3
  {
    UnconsTwo(Ident(h.callee), Sym(LParen), PrintArgs(h.args) + [Sym(RParen)], rest);
    ArgsInverse(h.args, rest);
  }

  /** Every binary level is at least PTop. */
  lemma {:induction false} AnyAtTop(e: PExpr)
    ensures LeftEdgeAtLeast(e, PTop)
  {
    if e.PBinary? {
      AnyAtTop(e.left);
    }
  }

  /** Running the tail loop from the head of e over the rest of e's tokens
      rebuilds e, one binary node at a time, bottom-up. */
  lemma {:induction false} TailSteps(e: PExpr, rest: seq<Token>, t: int)
    requires Resolved(e) && LeftEdgeAtLeast(e, t) && Follows(e, rest) && NotCalled(rest)
    ensures ParseTail(Head(e), AfterHead(e) + rest, t) == ParseTail(e, rest, t)
    decreases Size(e), 2
  {
    if e.PBinary? {
      var l, r := e.left, e.right;
      var p := BinaryPrec(e.bop);
      var more := OperatorPart(e) + rest;
      Uncons(Sym(BinaryPunct(e.bop)), Print(r), rest);
      AppendAssoc(AfterHead(l), OperatorPart(e), rest);
      ExprInverse(r, rest, p + 1);
      TailSteps(l, more, t);
    } else {
      AppendEmpty(rest);
    }
  }

  /** ParseArgs reads back an argument list and its `)`. */
  lemma {:induction false} ArgsInverse(args: seq<PExpr>, rest: seq<Token>)
    requires forall i | 0 <= i < |args| :: Resolved(args[i])
    ensures ParseArgs(PrintArgs(args) + [Sym(RParen)] + rest) == Ok(PParsedArgs(args, rest))
    decreases ArgsSize(args), 7
  {
    if args == [] {
      AppendEmpty([Sym(RParen)]);
      Uncons1(Sym(RParen), rest);
    } else {
      IndexLeft(PrintArgs(args) + [Sym(RParen)], rest, 0);
      IndexLeft(PrintArgs(args), [Sym(RParen)], 0);
      ArgListInverse(args, rest);
    }
  }

  lemma {:induction false} ArgListInverse(args: seq<PExpr>, rest: seq<Token>)
    requires args != [] && forall i | 0 <= i < |args| :: Resolved(args[i])
    ensures ParseArgList(PrintArgs(args) + [Sym(RParen)] + rest) == Ok(PParsedArgs(args, rest))
    decreases ArgsSize(args), 6
  {
    var a := args[0];
    AnyAtTop(a);
    HeadTail(args);
    if |args| == 1 {
      AppendAssoc(Print(a), [Sym(RParen)], rest);
      Uncons1(Sym(RParen), rest);
      ExprInverse(a, [Sym(RParen)] + rest, PTop);
      assert args == [a];
    } else {
      var more := PrintArgs(args[1..]) + [Sym(RParen)] + rest;
      Regroup(Print(a), [Sym(Comma)], PrintArgs(args[1..]), [Sym(RParen)], rest);
      Uncons1(Sym(Comma), more);
      ExprInverse(a, [Sym(Comma)] + more, PTop);
      assert forall i | 0 <= i < |args[1..]| :: args[1..][i] == args[i + 1];
      ArgListInverse(args[1..], rest);
    }
  }

  /** Print then Parse gives back every resolved tree. */
  lemma ParsePrintRoundTrip(e: PExpr)
    requires Resolved(e)
    ensures Parse(Print(e)) == Ok(e)
  {
    AnyAtTop(e);
    AppendEmpty(Print(e));
    ExprInverse(e, [], PTop);
  }

  /** Parse accepts a token sequence exactly when some resolved tree prints as
      it, and then returns that tree. */
  lemma ParseExactlyInvertsPrint(ts: seq<Token>, e: PExpr)
    ensures Parse(ts) == Ok(e) <==> Resolved(e) && Print(e) == ts
  {
    ParseSound(ts);
    if Resolved(e) && Print(e) == ts {
      ParsePrintRoundTrip(e);
    }
  }
}
