/** The expression operators of the C grammar, their lexemes, and the PREC
    table that fixes how tightly each one binds. */
module Precedence {
  import opened Wrappers

  // The PREC table, lowest binding first.
  const PAREN_DECLARATOR: int := -10
  const ASSIGNMENT: int := -2
  const CONDITIONAL: int := -1
  const DEFAULT: int := 0
  const LOGICAL_OR: int := 1
  const LOGICAL_AND: int := 2
  const INCLUSIVE_OR: int := 3
  const EXCLUSIVE_OR: int := 4
  const BITWISE_AND: int := 5
  const EQUAL: int := 6
  const RELATIONAL: int := 7
  const OFFSETOF: int := 8
  const SHIFT: int := 9
  const ADD: int := 10
  const MULTIPLY: int := 11
  const CAST: int := 12
  const SIZEOF: int := 13
  const UNARY: int := 14
  const CALL: int := 15
  const FIELD: int := 16
  const SUBSCRIPT: int := 17

  /** The associativity a `prec.left`, `prec.right` or plain `prec` gives a rule. */
  datatype Assoc = Left | Right | NonAssoc

  datatype BinaryOp =
    | Add | Subtract | Multiply | Divide | Modulo
    | LogicalOr | LogicalAnd | BitwiseOr | BitwiseXor | BitwiseAnd
    | Equal | NotEqual | Greater | GreaterEqual | LessEqual | Less
    | ShiftLeft | ShiftRight

  /** The eleven operators an assignment_expression accepts. */
  datatype AssignOp =
    | Assign | MultiplyAssign | DivideAssign | ModuloAssign | AddAssign | SubtractAssign
    | ShiftLeftAssign | ShiftRightAssign | AndAssign | XorAssign | OrAssign

  datatype UnaryOp = Not | BitwiseNot | Negate | Plus   // ! ~ - +
  datatype PointerOp = Dereference | AddressOf          // * &
  datatype UpdateOp = Increment | Decrement             // ++ --
  datatype FieldOp = Dot | Arrow                        // . ->

  function BinaryLexeme(op: BinaryOp): string {
    match op
    case Add => "+"
    case Subtract => "-"
    case Multiply => "*"
    case Divide => "/"
    case Modulo => "%"
    case LogicalOr => "||"
    case LogicalAnd => "&&"
    case BitwiseOr => "|"
    case BitwiseXor => "^"
    case BitwiseAnd => "&"
    case Equal => "=="
    case NotEqual => "!="
    case Greater => ">"
    case GreaterEqual => ">="
    case LessEqual => "<="
    case Less => "<"
    case ShiftLeft => "<<"
    case ShiftRight => ">>"
  }

  /** The operator table of binary_expression, in the order it is written;
      each operator stands for its lexeme (BinaryLexeme). */
  const BinaryTable: seq<(BinaryOp, int)> := [
    (Add, ADD), (Subtract, ADD),
    (Multiply, MULTIPLY), (Divide, MULTIPLY), (Modulo, MULTIPLY),
    (LogicalOr, LOGICAL_OR), (LogicalAnd, LOGICAL_AND),
    (BitwiseOr, INCLUSIVE_OR), (BitwiseXor, EXCLUSIVE_OR), (BitwiseAnd, BITWISE_AND),
    (Equal, EQUAL), (NotEqual, EQUAL),
    (Greater, RELATIONAL), (GreaterEqual, RELATIONAL), (LessEqual, RELATIONAL), (Less, RELATIONAL),
    (ShiftLeft, SHIFT), (ShiftRight, SHIFT)
  ]

  /** The operator table of preproc_binary_expression, written out separately. */
  const PreprocBinaryTable: seq<(BinaryOp, int)> := [
    (Add, ADD), (Subtract, ADD),
    (Multiply, MULTIPLY), (Divide, MULTIPLY), (Modulo, MULTIPLY),
    (LogicalOr, LOGICAL_OR), (LogicalAnd, LOGICAL_AND),
    (BitwiseOr, INCLUSIVE_OR), (BitwiseXor, EXCLUSIVE_OR), (BitwiseAnd, BITWISE_AND),
    (Equal, EQUAL), (NotEqual, EQUAL),
    (Greater, RELATIONAL), (GreaterEqual, RELATIONAL), (LessEqual, RELATIONAL), (Less, RELATIONAL),
    (ShiftLeft, SHIFT), (ShiftRight, SHIFT)
  ]

  /** The precedence the first entry of a table gives an operator, if any. */
  function Lookup(table: seq<(BinaryOp, int)>, op: BinaryOp): (r: Option<int>)
    ensures r.Some? <==> exists i :: 0 <= i < |table| && table[i].0 == op
  {
    if table == [] then None
    else if table[0].0 == op then Some(table[0].1)
    else
      assert forall i :: 0 < i < |table| ==> table[i] == table[1..][i - 1];
      Lookup(table[1..], op)
  }

  /** An entry that no earlier entry shadows is the one Lookup finds. */
  lemma {:induction false} LookupAt(table: seq<(BinaryOp, int)>, i: nat, op: BinaryOp)
    requires i < |table| && table[i].0 == op
    requires forall j :: 0 <= j < i ==> table[j].0 != op
    ensures Lookup(table, op) == Some(table[i].1)
  {
    if i > 0 {
      LookupAt(table[1..], i - 1, op);
    }
  }

  /** The operator-to-precedence function every binary rule is built from. */
  function BinaryPrec(op: BinaryOp): (p: int)
    ensures LOGICAL_OR <= p <= MULTIPLY
  {
    match op
    case Add => ADD
    case Subtract => ADD
    case Multiply => MULTIPLY
    case Divide => MULTIPLY
    case Modulo => MULTIPLY
    case LogicalOr => LOGICAL_OR
    case LogicalAnd => LOGICAL_AND
    case BitwiseOr => INCLUSIVE_OR
    case BitwiseXor => EXCLUSIVE_OR
    case BitwiseAnd => BITWISE_AND
    case Equal => EQUAL
    case NotEqual => EQUAL
    case Greater => RELATIONAL
    case GreaterEqual => RELATIONAL
    case LessEqual => RELATIONAL
    case Less => RELATIONAL
    case ShiftLeft => SHIFT
    case ShiftRight => SHIFT
  }

  /** Position of each operator in the table (the table lists every operator once). */
  function TableIndex(op: BinaryOp): (i: nat)
    ensures i < |BinaryTable| && BinaryTable[i].0 == op
    ensures forall j :: 0 <= j < |BinaryTable| && BinaryTable[j].0 == op ==> j == i
  {
    match op
    case Add => 0
    case Subtract => 1
    case Multiply => 2
    case Divide => 3
    case Modulo => 4
    case LogicalOr => 5
    case LogicalAnd => 6
    case BitwiseOr => 7
    case BitwiseXor => 8
    case BitwiseAnd => 9
    case Equal => 10
    case NotEqual => 11
    case Greater => 12
    case GreaterEqual => 13
    case LessEqual => 14
    case Less => 15
    case ShiftLeft => 16
    case ShiftRight => 17
  }

  /** BinaryPrec is the binary_expression table: every operator is in it and
      its entry carries BinaryPrec's level. */
  lemma BinaryTableDefinesPrec(op: BinaryOp)
    ensures Lookup(BinaryTable, op) == Some(BinaryPrec(op))
  {
    var i := TableIndex(op);
    LookupAt(BinaryTable, i, op);
  }

  /** The preprocessor table covers the same eighteen operators and gives
      each one the identical precedence. */
  lemma PreprocTableMatchesBinaryTable(op: BinaryOp)
    ensures Lookup(PreprocBinaryTable, op) == Lookup(BinaryTable, op) == Some(BinaryPrec(op))
  {
    assert PreprocBinaryTable == BinaryTable;
    BinaryTableDefinesPrec(op);
  }

  /** Reference grouping of ISO/IEC 9899:2018: the number of the subclause of
      section 6.5 that defines each binary operator (6.5.5 multiplicative up to
      6.5.14 logical OR), so a larger number binds more loosely. */
  function C17Subclause(op: BinaryOp): nat {
    match op
    case Multiply => 5
    case Divide => 5
    case Modulo => 5
    case Add => 6
    case Subtract => 6
    case ShiftLeft => 7
    case ShiftRight => 7
    case Greater => 8
    case GreaterEqual => 8
    case LessEqual => 8
    case Less => 8
    case Equal => 9
    case NotEqual => 9
    case BitwiseAnd => 10
    case BitwiseXor => 11
    case BitwiseOr => 12
    case LogicalAnd => 13
    case LogicalOr => 14
  }

  /** The PREC levels order the binary operators exactly as C17 does. */
  lemma BinaryPrecFollowsC17(a: BinaryOp, b: BinaryOp)
    ensures BinaryPrec(a) < BinaryPrec(b) <==> C17Subclause(a) > C17Subclause(b)
    ensures BinaryPrec(a) == BinaryPrec(b) <==> C17Subclause(a) == C17Subclause(b)
  {
  }

  /** No two binary operators share a lexeme. */
  lemma BinaryLexemesDistinct(a: BinaryOp, b: BinaryOp)
    ensures BinaryLexeme(a) == BinaryLexeme(b) ==> a == b
  {
    var la, lb := BinaryLexeme(a), BinaryLexeme(b);
    if la == lb {
      assert |la| == |lb| && la[0] == lb[0];
      assert |la| == 2 ==> la[1] == lb[1];
    }
  }

}
