/** The conditional directives generated by preprocIf(suffix, content): an
    `#if` or `#ifdef`/`#ifndef` opening, its content, an optional chain of
    `#elif`/`#elifdef`/`#elifndef` alternatives that may end in one `#else`,
    and the closing `#endif`. The grammar instantiates the family four times;
    each instance appends its suffix to every rule name it generates. The
    content items themselves are left abstract (type parameter C): the parser
    sees each as one unit. */
module PreprocIf {
  import opened Wrappers
  import PreprocExpr
  import SeqFacts

  /** The four instances of the family, by the suffix of their rule names. */
  datatype Suffix = Block | FieldDeclarationList | EnumeratorList | EnumeratorListNoComma

  function SuffixText(s: Suffix): string {
    match s
    case Block => ""
    case FieldDeclarationList => "_in_field_declaration_list"
    case EnumeratorList => "_in_enumerator_list"
    case EnumeratorListNoComma => "_in_enumerator_list_no_comma"
  }

  /** The precedence every rule of the instance carries. */
  function SuffixPrecedence(s: Suffix): int {
    if s == EnumeratorListNoComma then -1 else 0
  }

  /** The content rule of the instance can itself be a conditional of the same
      instance: a block item can be a preproc_if, a field declaration list
      item a preproc_if_in_field_declaration_list; an enumerator with or
      without its comma cannot. */
  predicate Nests(s: Suffix) {
    s == Block || s == FieldDeclarationList
  }

  // ---------------------------------------------------------------------------
  // What the parser reads: directive lines and content items.

  datatype Line<C> =
    | IfLine(condition: PreprocExpr.PExpr)
    | IfdefLine(negated: bool, name: string)
    | ElifLine(condition: PreprocExpr.PExpr)
    | ElifdefLine(negated: bool, name: string)
    | ElseLine
    | EndifLine
    | ContentLine(item: C)

  predicate Opens<C>(l: Line<C>) {
    l.IfLine? || l.IfdefLine?
  }

  // ---------------------------------------------------------------------------
  // What it builds. Every node records the suffix of the rule that built it.

  datatype Opening = If(condition: PreprocExpr.PExpr) | Ifdef(negated: bool, name: string)

  datatype Conditional<C> =
    Conditional(suffix: Suffix, opening: Opening, body: seq<Content<C>>, alternative: Option<Alternative<C>>)

  /** preproc_else, preproc_elif and preproc_elifdef. Only the last two have
      an alternative of their own. */
  datatype Alternative<C> =
    | Else(suffix: Suffix, body: seq<Content<C>>)
    | Elif(suffix: Suffix, condition: PreprocExpr.PExpr, body: seq<Content<C>>, alternative: Option<Alternative<C>>)
    | Elifdef(suffix: Suffix, negated: bool, name: string, body: seq<Content<C>>, alternative: Option<Alternative<C>>)

  datatype Content<C> = Item(item: C) | Nested(conditional: Conditional<C>)

  /** Every node carries the suffix sfx, and nested conditionals occur only in
      an instance whose content allows them. */
  predicate WellFormed<C>(c: Conditional<C>, sfx: Suffix) {
    c.suffix == sfx && BodyWellFormed(c.body, sfx) && AltWellFormed(c.alternative, sfx)
  }

  predicate BodyWellFormed<C>(body: seq<Content<C>>, sfx: Suffix) {
    forall i | 0 <= i < |body| :: ContentWellFormed(body[i], sfx)
  }

  predicate ContentWellFormed<C>(x: Content<C>, sfx: Suffix) {
    match x
    case Item(_) => true
    case Nested(c) => Nests(sfx) && WellFormed(c, sfx)
  }

  predicate AltWellFormed<C>(a: Option<Alternative<C>>, sfx: Suffix) {
    match a
    case None => true
    case Some(Else(s, b)) => s == sfx && BodyWellFormed(b, sfx)
    case Some(Elif(s, _, b, next)) => s == sfx && BodyWellFormed(b, sfx) && AltWellFormed(next, sfx)
    case Some(Elifdef(s, _, _, b, next)) => s == sfx && BodyWellFormed(b, sfx) && AltWellFormed(next, sfx)
  }

  // ---------------------------------------------------------------------------
  // Printing a conditional back to its lines.

  function OpeningLine<C>(o: Opening): Line<C> {
    match o
    case If(e) => IfLine(e)
    case Ifdef(n, x) => IfdefLine(n, x)
  }

  function PrintCond<C>(c: Conditional<C>): (r: seq<Line<C>>)
    ensures |r| >= 2 && Opens(r[0]) && r[|r| - 1] == EndifLine
  {
    [OpeningLine(c.opening)] + (PrintBody(c.body) + (PrintAlt(c.alternative) + [EndifLine]))
  }

  function PrintBody<C>(body: seq<Content<C>>): seq<Line<C>> {
    if body == [] then [] else PrintContent(body[0]) + PrintBody(body[1..])
  }

  function PrintContent<C>(x: Content<C>): seq<Line<C>> {
    match x
    case Item(v) => [ContentLine(v)]
    case Nested(c) => PrintCond(c)
  }

  function PrintAlt<C>(a: Option<Alternative<C>>): (r: seq<Line<C>>)
    ensures a.Some? ==> r != [] && (r[0].ElseLine? || r[0].ElifLine? || r[0].ElifdefLine?)
  {
    match a
    case None => []
    case Some(Else(_, b)) => [ElseLine] + PrintBody(b)
    case Some(Elif(_, e, b, next)) => [ElifLine(e)] + (PrintBody(b) + PrintAlt(next))
    case Some(Elifdef(_, n, x, b, next)) => [ElifdefLine(n, x)] + (PrintBody(b) + PrintAlt(next))
  }

  // ---------------------------------------------------------------------------
  // The recognizer.

  /** preproc_if / preproc_ifdef: an opening line, content, an optional
      alternative, and `#endif`. */
  function ParseCond<C>(lines: seq<Line<C>>, sfx: Suffix): (r: Option<(Conditional<C>, seq<Line<C>>)>)
    ensures r.Some? ==> |r.value.1| < |lines|
    decreases |lines|, 0
  {
    if lines == [] || !Opens(lines[0]) then None
    else
      var opening := if lines[0].IfLine? then If(lines[0].condition) else Ifdef(lines[0].negated, lines[0].name);
      match ParseBody(lines[1..], sfx)
      case None => None
      case Some((body, rest)) =>
        match ParseAlt(rest, sfx)
        case None => None
        case Some((alt, after)) =>
          if after != [] && after[0].EndifLine? then Some((Conditional(sfx, opening, body, alt), after[1..]))
          else None
  }

  /** repeat(content): content items, and nested conditionals where the
      instance allows them, up to the first line that is neither. */
  function ParseBody<C>(lines: seq<Line<C>>, sfx: Suffix): (r: Option<(seq<Content<C>>, seq<Line<C>>)>)
    ensures r.Some? ==> |r.value.1| <= |lines|
    decreases |lines|, 1
  {
    if lines == [] then Some(([], []))
    else if lines[0].ContentLine? then
      match ParseBody(lines[1..], sfx)
      case None => None
      case Some((b, rest)) => Some(([Item(lines[0].item)] + b, rest))
    else if Opens(lines[0]) && Nests(sfx) then
      match ParseCond(lines, sfx)
      case None => None
      case Some((c, rest)) =>
        match ParseBody(rest, sfx)
        case None => None
        case Some((b, after)) => Some(([Nested(c)] + b, after))
    else Some(([], lines))
  }

  /** optional(alternativeBlock): `#else` and content; or `#elif`/`#elifdef`
      with content and again an optional alternative. */
  function ParseAlt<C>(lines: seq<Line<C>>, sfx: Suffix): (r: Option<(Option<Alternative<C>>, seq<Line<C>>)>)
    ensures r.Some? ==> |r.value.1| <= |lines|
    decreases |lines|, 2
  {
    if lines == [] then Some((None, lines))
    else match lines[0]
      case ElseLine =>
        (match ParseBody(lines[1..], sfx)
         case None => None
         case Some((b, rest)) => Some((Some(Else(sfx, b)), rest)))
      case ElifLine(e) =>
        (match ParseBody(lines[1..], sfx)
         case None => None
         case Some((b, rest)) =>
           match ParseAlt(rest, sfx)
           case None => None
           case Some((next, after)) => Some((Some(Elif(sfx, e, b, next)), after)))
      case ElifdefLine(n, x) =>
        (match ParseBody(lines[1..], sfx)
         case None => None
         case Some((b, rest)) =>
           match ParseAlt(rest, sfx)
           case None => None
           case Some((next, after)) => Some((Some(Elifdef(sfx, n, x, b, next)), after)))
      case _ => Some((None, lines))
  }

  // ---------------------------------------------------------------------------
  // Soundness: what the recognizer builds is well formed and prints back to
  // the lines it consumed.

  ghost predicate CondParsed<C>(lines: seq<Line<C>>, sfx: Suffix, r: Option<(Conditional<C>, seq<Line<C>>)>) {
    r.Some? ==> WellFormed(r.value.0, sfx) && PrintCond(r.value.0) + r.value.1 == lines
  }

  ghost predicate BodyParsed<C>(lines: seq<Line<C>>, sfx: Suffix, r: Option<(seq<Content<C>>, seq<Line<C>>)>) {
    r.Some? ==> BodyWellFormed(r.value.0, sfx) && PrintBody(r.value.0) + r.value.1 == lines
  }

  ghost predicate AltParsed<C>(lines: seq<Line<C>>, sfx: Suffix, r: Option<(Option<Alternative<C>>, seq<Line<C>>)>) {
    r.Some? ==> AltWellFormed(r.value.0, sfx) && PrintAlt(r.value.0) + r.value.1 == lines
  }


  lemma ConsBody<C>(x: Content<C>, b: seq<Content<C>>, sfx: Suffix)
    ensures PrintBody([x] + b) == PrintContent(x) + PrintBody(b)
    ensures BodyWellFormed([x] + b, sfx) <==> ContentWellFormed(x, sfx) && BodyWellFormed(b, sfx)
  {
    SeqFacts.Uncons1(x, b);
    assert forall i | 1 <= i < |b| + 1 :: ([x] + b)[i] == b[i - 1];
  }

  /** What ParseCond accepts is a well-formed conditional of the instance
      sfx, printed back exactly as the lines it consumed. */
  lemma {:induction false} CondSound<C>(lines: seq<Line<C>>, sfx: Suffix)
    ensures CondParsed(lines, sfx, ParseCond(lines, sfx))
    decreases |lines|, 0
  {
    if lines != [] && Opens(lines[0]) {
      BodySound(lines[1..], sfx);
      match ParseBody(lines[1..], sfx)
      case None =>
      case Some((body, rest)) =>
        AltSound(rest, sfx);
        match ParseAlt(rest, sfx)
        case None =>
        case Some((alt, after)) =>
          if after != [] && after[0].EndifLine? {
            var r := ParseCond(lines, sfx);
            assert OpeningLine(r.value.0.opening) == lines[0];
            SeqFacts.HeadTail(after);
            SeqFacts.HeadTail(lines);
            SeqFacts.TailOut4([lines[0]], PrintBody(body), PrintAlt(alt), [EndifLine], after[1..]);
          }
    }
  }

  lemma {:induction false} BodySound<C>(lines: seq<Line<C>>, sfx: Suffix)
    ensures BodyParsed(lines, sfx, ParseBody(lines, sfx))
    decreases |lines|, 1
  {
    if lines == [] {
    } else if lines[0].ContentLine? {
      BodySound(lines[1..], sfx);
      match ParseBody(lines[1..], sfx)
      case None =>
      case Some((b, rest)) =>
        ConsBody(Item(lines[0].item), b, sfx);
        SeqFacts.HeadTail(lines);
        SeqFacts.AppendAssoc([lines[0]], PrintBody(b), rest);
    } else if Opens(lines[0]) && Nests(sfx) {
      CondSound(lines, sfx);
      match ParseCond(lines, sfx)
      case None =>
      case Some((c, rest)) =>
        BodySound(rest, sfx);
        match ParseBody(rest, sfx)
        case None =>
        case Some((b, after)) =>
          ConsBody(Nested(c), b, sfx);
          SeqFacts.AppendAssoc(PrintCond(c), PrintBody(b), after);
    }
  }

  lemma {:induction false} AltSound<C>(lines: seq<Line<C>>, sfx: Suffix)
    ensures AltParsed(lines, sfx, ParseAlt(lines, sfx))
    decreases |lines|, 2
  {
    if lines != [] && (lines[0].ElseLine? || lines[0].ElifLine? || lines[0].ElifdefLine?) {
      BodySound(lines[1..], sfx);
      SeqFacts.HeadTail(lines);
      match ParseBody(lines[1..], sfx)
      case None =>
      case Some((b, rest)) =>
        if lines[0].ElseLine? {
          SeqFacts.AppendAssoc([lines[0]], PrintBody(b), rest);
        } else {
          AltSound(rest, sfx);
          match ParseAlt(rest, sfx)
          case None =>
          case Some((next, after)) =>
            SeqFacts.TailOut3([lines[0]], PrintBody(b), PrintAlt(next), after);
        }
    }
  }

  // ---------------------------------------------------------------------------
  // Completeness: every well-formed conditional is recognized from its own
  // lines, whatever follows it.

  /** A line at which repeat(content) of the instance sfx stops. */
  predicate Stops<C>(l: Line<C>, sfx: Suffix) {
    !l.ContentLine? && !(Opens(l) && Nests(sfx))
  }

  /** Number of nodes, the measure of the completeness proofs. */
  ghost function CondSize<C>(c: Conditional<C>): nat {
    1 + BodySize(c.body) + AltSize(c.alternative)
  }

  ghost function BodySize<C>(body: seq<Content<C>>): nat {
    if body == [] then 0 else 1 + ContentSize(body[0]) + BodySize(body[1..])
  }

  ghost function ContentSize<C>(x: Content<C>): nat {
    match x
    case Item(_) => 0
    case Nested(c) => CondSize(c)
  }

  ghost function AltSize<C>(a: Option<Alternative<C>>): nat {
    match a
    case None => 0
    case Some(Else(_, b)) => 1 + BodySize(b)
    case Some(Elif(_, _, b, next)) => 1 + BodySize(b) + AltSize(next)
    case Some(Elifdef(_, _, _, b, next)) => 1 + BodySize(b) + AltSize(next)
  }

  lemma {:induction false} CondInverse<C>(c: Conditional<C>, rest: seq<Line<C>>, sfx: Suffix)
    requires WellFormed(c, sfx)
    ensures ParseCond(PrintCond(c) + rest, sfx) == Some((c, rest))
    decreases CondSize(c)
  {
    var lines := PrintCond(c) + rest;
    var tail := PrintAlt(c.alternative) + ([EndifLine] + rest);
    SeqFacts.TailOut4([OpeningLine(c.opening)], PrintBody(c.body), PrintAlt(c.alternative), [EndifLine], rest);
    SeqFacts.Uncons1(OpeningLine<C>(c.opening), PrintBody(c.body) + tail);
    assert lines[1..] == PrintBody(c.body) + tail;
    AltFirst(c.alternative, [EndifLine] + rest, sfx);
    BodyInverse(c.body, tail, sfx);
    AltInverse(c.alternative, [EndifLine] + rest, sfx);
    SeqFacts.Uncons1(EndifLine, rest);
  }

  lemma AltFirst<C>(a: Option<Alternative<C>>, rest: seq<Line<C>>, sfx: Suffix)
    requires rest != [] && rest[0].EndifLine?
    ensures PrintAlt(a) + rest != [] && Stops((PrintAlt(a) + rest)[0], sfx)
  {
  }

  lemma {:induction false} BodyInverse<C>(body: seq<Content<C>>, rest: seq<Line<C>>, sfx: Suffix)
    requires BodyWellFormed(body, sfx)
    requires rest == [] || Stops(rest[0], sfx)
    ensures ParseBody(PrintBody(body) + rest, sfx) == Some((body, rest))
    decreases BodySize(body)
  {
    if body == [] {
      SeqFacts.AppendEmpty(rest);
    } else {
      var tail := PrintBody(body[1..]) + rest;
      SeqFacts.HeadTail(body);
      ConsBody(body[0], body[1..], sfx);
      SeqFacts.AppendAssoc(PrintContent(body[0]), PrintBody(body[1..]), rest);
      BodyInverse(body[1..], rest, sfx);
      match body[0]
      case Item(v) =>
        SeqFacts.Uncons1(ContentLine(v), tail);
      case Nested(c) =>
        assert ContentSize(body[0]) == CondSize(c);
        CondInverse(c, tail, sfx);
    }
  }

  lemma {:induction false} AltInverse<C>(a: Option<Alternative<C>>, rest: seq<Line<C>>, sfx: Suffix)
    requires AltWellFormed(a, sfx)
    requires rest != [] && rest[0].EndifLine?
    ensures ParseAlt(PrintAlt(a) + rest, sfx) == Some((a, rest))
    decreases AltSize(a), 1
  {
    match a
    case None =>
      SeqFacts.AppendEmpty(rest);
    case Some(Else(_, b)) =>
      SeqFacts.Uncons1(ElseLine, PrintBody(b) + rest);
      SeqFacts.AppendAssoc([ElseLine], PrintBody(b), rest);
      BodyInverse(b, rest, sfx);
    case Some(Elif(_, _, _, _)) =>
      ChainedInverse(a, rest, sfx);
    case Some(Elifdef(_, _, _, _, _)) =>
      ChainedInverse(a, rest, sfx);
  }

  /** The `#elif` and `#elifdef` cases, which continue the chain. */
  lemma {:induction false} ChainedInverse<C>(a: Option<Alternative<C>>, rest: seq<Line<C>>, sfx: Suffix)
    requires a.Some? && !a.value.Else? && AltWellFormed(a, sfx)
    requires rest != [] && rest[0].EndifLine?
    ensures ParseAlt(PrintAlt(a) + rest, sfx) == Some((a, rest))
    decreases AltSize(a), 0
  {
    var alt := a.value;
    var l: Line<C> := if alt.Elif? then ElifLine(alt.condition) else ElifdefLine(alt.negated, alt.name);
    var tail := PrintAlt(alt.alternative) + rest;
    assert PrintAlt(a) == [l] + (PrintBody(alt.body) + PrintAlt(alt.alternative));
    SeqFacts.TailOut3([l], PrintBody(alt.body), PrintAlt(alt.alternative), rest);
    SeqFacts.Uncons1(l, PrintBody(alt.body) + tail);
    AltFirst(alt.alternative, rest, sfx);
    BodyInverse(alt.body, tail, sfx);
    AltInverse(alt.alternative, rest, sfx);
  }

  // ---------------------------------------------------------------------------
  // `#endif` accounting: each opening line consumes exactly one `#endif`, and
  // the alternatives consume none.

  function Weight<C>(l: Line<C>): int {
    if Opens(l) then 1 else if l.EndifLine? then -1 else 0
  }

  /** Openings minus `#endif` lines. */
  function Balance<C>(s: seq<Line<C>>): int {
    if s == [] then 0 else Weight(s[0]) + Balance(s[1..])
  }

  /** No prefix closes more conditionals than it opened. */
  ghost predicate NeverBelowZero<C>(s: seq<Line<C>>) {
    forall k | 0 <= k <= |s| :: Balance(s[..k]) >= 0
  }

  /** s is one closed unit: it ends balanced, and every non-empty proper
      prefix is still open, so its last line is the `#endif` matching its
      first. */
  ghost predicate Encloses<C>(s: seq<Line<C>>) {
    Balance(s) == 0 && forall k | 1 <= k < |s| :: Balance(s[..k]) >= 1
  }

  lemma {:induction false} BalanceAppend<C>(a: seq<Line<C>>, b: seq<Line<C>>)
    ensures Balance(a + b) == Balance(a) + Balance(b)
  {
    if a == [] {
      SeqFacts.AppendEmpty(b);
    } else {
      SeqFacts.HeadTail(a);
      SeqFacts.Uncons(a[0], a[1..], b);
      assert (a + b)[0] == a[0] && (a + b)[1..] == a[1..] + b;
      BalanceAppend(a[1..], b);
    }
  }

  lemma PrefixOfAppend<C>(a: seq<Line<C>>, b: seq<Line<C>>, k: nat)
    requires k <= |a| + |b|
    ensures k <= |a| ==> (a + b)[..k] == a[..k]
    ensures k > |a| ==> (a + b)[..k] == a + b[..k - |a|]
  {
  }

  lemma NeverBelowZeroAppend<C>(a: seq<Line<C>>, b: seq<Line<C>>)
    requires NeverBelowZero(a) && Balance(a) == 0 && NeverBelowZero(b)
    ensures NeverBelowZero(a + b) && Balance(a + b) == Balance(b)
  {
    BalanceAppend(a, b);
    forall k | 0 <= k <= |a + b|
      ensures Balance((a + b)[..k]) >= 0
    {
      PrefixOfAppend(a, b, k);
      if k > |a| {
        BalanceAppend(a, b[..k - |a|]);
      }
    }
  }

  lemma WrapEncloses<C>(o: Line<C>, x: seq<Line<C>>)
    requires Opens(o) && NeverBelowZero(x) && Balance(x) == 0
    ensures Encloses([o] + x + [EndifLine])
  {
    var s := [o] + x + [EndifLine];
    assert Balance<C>([EndifLine]) == -1;
    assert Balance([o]) == 1;
    BalanceAppend([o] + x, [EndifLine]);
    BalanceAppend([o], x);
    forall k | 1 <= k < |s|
      ensures Balance(s[..k]) >= 1
    {
      assert s[..k] == [o] + x[..k - 1];
      BalanceAppend([o], x[..k - 1]);
    }
  }

  lemma {:induction false} CondEncloses<C>(c: Conditional<C>)
    ensures Encloses(PrintCond(c)) && NeverBelowZero(PrintCond(c))
    decreases CondSize(c)
  {
    var b := PrintBody(c.body);
    var a := PrintAlt(c.alternative);
    BodyNeverBelowZero(c.body);
    AltNeverBelowZero(c.alternative);
    NeverBelowZeroAppend(b, a);
    WrapEncloses(OpeningLine<C>(c.opening), b + a);
    SeqFacts.TailOut3([OpeningLine<C>(c.opening)], b, a, [EndifLine]);
    SeqFacts.AppendAssoc([OpeningLine<C>(c.opening)], b + a, [EndifLine]);
    var s := PrintCond(c);
    assert Balance(s[..0]) == 0;
    assert s[..|s|] == s;
  }

  lemma {:induction false} BodyNeverBelowZero<C>(body: seq<Content<C>>)
    ensures NeverBelowZero(PrintBody(body)) && Balance(PrintBody(body)) == 0
    decreases BodySize(body)
  {
    if body != [] {
      var head := PrintContent(body[0]);
      if body[0].Item? {
        assert forall k | 0 <= k <= 1 :: head[..k] == [] || head[..k] == head;
      } else {
        assert ContentSize(body[0]) == CondSize(body[0].conditional);
        CondEncloses(body[0].conditional);
      }
      BodyNeverBelowZero(body[1..]);
      NeverBelowZeroAppend(head, PrintBody(body[1..]));
    }
  }

  lemma {:induction false} AltNeverBelowZero<C>(a: Option<Alternative<C>>)
    ensures NeverBelowZero(PrintAlt(a)) && Balance(PrintAlt(a)) == 0
    decreases AltSize(a)
  {
    match a
    case None =>
    case Some(Else(_, b)) =>
      BodyNeverBelowZero(b);
      DirectiveThen(ElseLine, PrintBody(b));
    case Some(Elif(_, e, b, next)) =>
      BodyNeverBelowZero(b);
      AltNeverBelowZero(next);
      NeverBelowZeroAppend(PrintBody(b), PrintAlt(next));
      DirectiveThen(ElifLine(e), PrintBody(b) + PrintAlt(next));
    case Some(Elifdef(_, n, x, b, next)) =>
      BodyNeverBelowZero(b);
      AltNeverBelowZero(next);
      NeverBelowZeroAppend(PrintBody(b), PrintAlt(next));
      DirectiveThen(ElifdefLine(n, x), PrintBody(b) + PrintAlt(next));
  }

  /** A line that neither opens nor closes leaves the count where it was. */
  lemma DirectiveThen<C>(l: Line<C>, x: seq<Line<C>>)
    requires Weight(l) == 0 && NeverBelowZero(x) && Balance(x) == 0
    ensures NeverBelowZero([l] + x) && Balance([l] + x) == 0
  {
    assert Balance([l]) == 0;
    assert forall k | 0 <= k <= 1 :: [l][..k] == [] || [l][..k] == [l];
    NeverBelowZeroAppend([l], x);
  }

  /** Whatever ParseCond consumes is one enclosed unit: the `#endif` that
      ends it is the one matching its opening line, and the `#elif`/`#else`
      alternatives in between took none for themselves. */
  lemma ParsedConditionalEncloses<C>(lines: seq<Line<C>>, sfx: Suffix)
    requires ParseCond(lines, sfx).Some?
    ensures Encloses(lines[..|lines| - |ParseCond(lines, sfx).value.1|])
  {
    CondSound(lines, sfx);
    var (c, rest) := ParseCond(lines, sfx).value;
    CondEncloses(c);
    SeqFacts.DropLeft(PrintCond(c), rest);
    assert lines[..|lines| - |rest|] == PrintCond(c);
  }

  /** An alternative never consumes an `#endif` on its own. */
  lemma AlternativeBalanced<C>(a: Option<Alternative<C>>)
    ensures Balance(PrintAlt(a)) == 0
  {
    AltNeverBelowZero(a);
  }

  // ---------------------------------------------------------------------------
  // The top-level directive chain of a conditional.

  function Directives<C>(c: Conditional<C>): seq<Line<C>> {
    [OpeningLine(c.opening)] + AltDirectives(c.alternative) + [EndifLine]
  }

  function AltDirectives<C>(a: Option<Alternative<C>>): seq<Line<C>> {
    match a
    case None => []
    case Some(Else(_, _)) => [ElseLine]
    case Some(Elif(_, e, _, next)) => [ElifLine(e)] + AltDirectives(next)
    case Some(Elifdef(_, n, x, _, next)) => [ElifdefLine(n, x)] + AltDirectives(next)
  }

  lemma {:induction false} AltElseLast<C>(a: Option<Alternative<C>>)
    ensures forall i | 0 <= i < |AltDirectives(a)| :: AltDirectives(a)[i].ElseLine? ==> i == |AltDirectives(a)| - 1
    ensures forall i | 0 <= i < |AltDirectives(a)| :: !Opens(AltDirectives(a)[i]) && !AltDirectives(a)[i].EndifLine?
  {
    match a
    case None =>
    case Some(Else(_, _)) =>
    case Some(Elif(_, e, _, next)) =>
      AltElseLast(next);
      var l: Line<C> := ElifLine(e);
      SeqFacts.Uncons1(l, AltDirectives(next));
    case Some(Elifdef(_, n, x, _, next)) =>
      AltElseLast(next);
      var l: Line<C> := ElifdefLine(n, x);
      SeqFacts.Uncons1(l, AltDirectives(next));
  }

  /** The chain starts with the opening line and ends with `#endif`; between
      them come `#elif`/`#elifdef` lines and at most one `#else`, which is
      then the last alternative. */
  lemma ElseOnlyLast<C>(c: Conditional<C>)
    ensures var d := Directives(c);
      |d| >= 2 && Opens(d[0]) && d[|d| - 1].EndifLine? &&
      (forall i | 0 < i < |d| - 1 :: !Opens(d[i]) && !d[i].EndifLine?) &&
      (forall i | 0 <= i < |d| :: d[i].ElseLine? ==> i == |d| - 2)
  {
    AltElseLast(c.alternative);
    var d := Directives(c);
    var m := AltDirectives<C>(c.alternative);
    assert forall i | 0 < i < |d| - 1 :: d[i] == m[i - 1];
  }

  // ---------------------------------------------------------------------------
  // Examples, with integers as content items.

  const X: PreprocExpr.PExpr := PreprocExpr.PIdent("X")

  /** `#if X`, an item, `#else`, an item, `#endif`. */
  lemma IfElseAccepted()
    ensures ParseCond([IfLine(X), ContentLine(1), ElseLine, ContentLine(2), EndifLine], Block)
      == Some((Conditional(Block, If(X), [Item(1)], Some(Else(Block, [Item(2)]))), []))
  {
    var c: Conditional<int> := Conditional(Block, If(X), [Item(1)], Some(Else(Block, [Item(2)])));
    assert PrintBody([Item(2)]) == [ContentLine(2)];
    assert PrintBody([Item(1)]) == [ContentLine(1)];
    assert PrintCond(c) == [IfLine(X), ContentLine(1), ElseLine, ContentLine(2), EndifLine];
    assert WellFormed(c, Block);
    SeqFacts.AppendEmpty(PrintCond(c));
    CondInverse(c, [], Block);
  }

  /** `#else` followed by `#elif` is rejected: nothing may follow `#else` but
      content and the `#endif`. */
  lemma ElifAfterElseRejected()
    ensures ParseCond<int>([IfLine(X), ElseLine, ElifLine(X), EndifLine], Block) == None
  {
    var tail: seq<Line<int>> := [ElifLine(X), EndifLine];
    assert ParseBody(tail, Block) == Some(([], tail));
    assert ParseAlt([ElseLine] + tail, Block) == Some((Some(Else(Block, [])), tail));
    assert ParseBody([ElseLine] + tail, Block) == Some(([], [ElseLine] + tail));
    assert [IfLine(X), ElseLine, ElifLine(X), EndifLine][1..] == [ElseLine] + tail;
  }

  /** A conditional inside a conditional: accepted among block items, rejected
      in an enumerator list, whose content is a single enumerator. */
  lemma NestingDependsOnInstance()
    ensures ParseCond<int>([IfLine(X), IfLine(X), EndifLine, EndifLine], Block).Some?
    ensures ParseCond<int>([IfLine(X), IfLine(X), EndifLine, EndifLine], EnumeratorList) == None
  {
    var inner: Conditional<int> := Conditional(Block, If(X), [], None);
    var outer := Conditional(Block, If(X), [Nested(inner)], None);
    assert PrintCond(inner) == [IfLine(X), EndifLine];
    assert PrintBody([Nested(inner)]) == [IfLine(X), EndifLine];
    assert PrintCond(outer) == [IfLine(X), IfLine(X), EndifLine, EndifLine];
    assert BodyWellFormed([Nested(inner)], Block) by {
      assert ContentWellFormed(Nested(inner), Block);
    }
    assert WellFormed(outer, Block);
    SeqFacts.AppendEmpty(PrintCond(outer));
    CondInverse(outer, [], Block);
    var tail: seq<Line<int>> := [IfLine(X), EndifLine, EndifLine];
    assert ParseBody(tail, EnumeratorList) == Some(([], tail));
    assert ParseAlt(tail, EnumeratorList) == Some((None, tail));
    assert [IfLine(X), IfLine(X), EndifLine, EndifLine][1..] == tail;
  }
}
