/** The tokens that expressions are parsed from. Operators are tokens of their
    lexeme: whether `-`, `*` or `&` is binary or prefix is decided by where it
    stands, not by the token. */
module Tokens {
  import opened Wrappers
  import opened Precedence

  datatype Punct =
    | BinaryPunct(op: BinaryOp)        // + - * / % || && | ^ & == != > >= <= < << >>
    | Bang | Tilde | PlusPlus | MinusMinus
    | AssignPunct(aop: AssignOp)       // = *= /= %= += -= <<= >>= &= ^= |=
    | Question | Colon | Comma | DotPunct | ArrowPunct
    | LParen | RParen | LBracket | RBracket

  datatype LiteralKind = NumberLiteral | CharLiteral | StringLiteral

  /** A type descriptor is one opaque token here: the declarator rules that
      build it are not part of this model. */
  datatype Token =
    | Ident(name: string)
    | Lit(kind: LiteralKind, text: string)
    | TypeName(name: string)
    | SizeofKw
    | DefinedKw
    | Sym(p: Punct)

  function UnaryPunct(op: UnaryOp): Punct {
    match op
    case Not => Bang
    case BitwiseNot => Tilde
    case Negate => BinaryPunct(Subtract)
    case Plus => BinaryPunct(Add)
  }

  function PointerPunct(op: PointerOp): Punct {
    match op
    case Dereference => BinaryPunct(Multiply)
    case AddressOf => BinaryPunct(BitwiseAnd)
  }

  function UpdatePunct(op: UpdateOp): Punct {
    match op
    case Increment => PlusPlus
    case Decrement => MinusMinus
  }

  function FieldPunct(op: FieldOp): Punct {
    match op
    case Dot => DotPunct
    case Arrow => ArrowPunct
  }

  /** The prefix operator (`! ~ - +`) a punctuator spells, if any. */
  function UnaryOf(p: Punct): (r: Option<UnaryOp>)
    ensures r.Some? ==> UnaryPunct(r.value) == p
  {
    match p
    case Bang => Some(Not)
    case Tilde => Some(BitwiseNot)
    case BinaryPunct(Subtract) => Some(Negate)
    case BinaryPunct(Add) => Some(Plus)
    case _ => None
  }

  /** The pointer operator (`* &`) a punctuator spells, if any. */
  function PointerOf(p: Punct): (r: Option<PointerOp>)
    ensures r.Some? ==> PointerPunct(r.value) == p
  {
    match p
    case BinaryPunct(Multiply) => Some(Dereference)
    case BinaryPunct(BitwiseAnd) => Some(AddressOf)
    case _ => None
  }

  /** The update operator (`++ --`) a punctuator spells, if any. */
  function UpdateOf(p: Punct): (r: Option<UpdateOp>)
    ensures r.Some? ==> UpdatePunct(r.value) == p
  {
    match p
    case PlusPlus => Some(Increment)
    case MinusMinus => Some(Decrement)
    case _ => None
  }

  /** The tokens an expression can start with. */
  predicate StartsExpression(t: Token) {
    match t
    case Ident(_) => true
    case Lit(_, _) => true
    case SizeofKw => true
    case Sym(p) => p == LParen || UnaryOf(p).Some? || PointerOf(p).Some? || UpdateOf(p).Some?
    case _ => false
  }

  /** Each prefix, pointer and update operator is recognised back from its lexeme. */
  lemma PrefixPunctsRecognised(u: UnaryOp, q: PointerOp, d: UpdateOp)
    ensures UnaryOf(UnaryPunct(u)) == Some(u) && PointerOf(UnaryPunct(u)).None? && UpdateOf(UnaryPunct(u)).None?
    ensures PointerOf(PointerPunct(q)) == Some(q) && UnaryOf(PointerPunct(q)).None? && UpdateOf(PointerPunct(q)).None?
    ensures UpdateOf(UpdatePunct(d)) == Some(d) && UnaryOf(UpdatePunct(d)).None? && PointerOf(UpdatePunct(d)).None?
  {
  }
}
