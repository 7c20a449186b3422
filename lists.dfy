/** Comma-separated lists (the commaSep and commaSep1 helpers) and the body of
    an enumerator list, as token sequences. */
module Lists {
  import PreprocIf
  import SeqFacts

  // ---------------------------------------------------------------------------
  // commaSep1(rule) = rule, then any number of `,` rule; commaSep(rule) is
  // the same or nothing at all.

  datatype Elem<T> = Item(value: T) | Comma

  /** repeat(seq(',', rule)) */
  predicate CommaItems<T>(s: seq<Elem<T>>) {
    s == [] || (|s| >= 2 && s[0].Comma? && s[1].Item? && CommaItems(s[2..]))
  }

  predicate CommaSep1<T>(s: seq<Elem<T>>) {
    |s| >= 1 && s[0].Item? && CommaItems(s[1..])
  }

  predicate CommaSep<T>(s: seq<Elem<T>>) {
    s == [] || CommaSep1(s)
  }

  /** The list of the given items, with a comma between each two. */
  function Joined<T>(items: seq<T>): (r: seq<Elem<T>>)
    requires |items| >= 1
    ensures |r| == 2 * |items| - 1
  {
    if |items| == 1 then [Item(items[0])] else [Item(items[0]), Comma] + Joined(items[1..])
  }

  /** The items of a token sequence, in order. */
  function ItemsOf<T>(s: seq<Elem<T>>): seq<T> {
    if s == [] then [] else (if s[0].Item? then [s[0].value] else []) + ItemsOf(s[1..])
  }

  function Commas<T>(s: seq<Elem<T>>): nat {
    if s == [] then 0 else (if s[0].Comma? then 1 else 0) + Commas(s[1..])
  }

  /** Items sit at the even positions and commas at the odd ones. */
  ghost predicate Alternating<T>(s: seq<Elem<T>>, first: nat) {
    forall i | 0 <= i < |s| :: s[i].Comma? <==> (i + first) % 2 == 1
  }

  lemma {:induction false} CommaItemsShape<T>(s: seq<Elem<T>>)
    ensures CommaItems(s) <==> |s| % 2 == 0 && Alternating(s, 1)
  {
    if |s| >= 2 {
      CommaItemsShape(s[2..]);
      assert forall i | 2 <= i < |s| :: s[i] == s[2..][i - 2];
      if Alternating(s, 1) {
        assert Alternating(s[2..], 1) by {
          forall j | 0 <= j < |s[2..]| ensures s[2..][j].Comma? <==> (j + 1) % 2 == 1 {
            assert s[2..][j] == s[j + 2];
          }
        }
      }
    }
  }

  /** commaSep1 accepts exactly the odd-length sequences that alternate item,
      comma, item, ...: they start and end with an item, so there is no
      leading or trailing comma and no two commas or items are adjacent. */
  lemma CommaSep1Shape<T>(s: seq<Elem<T>>)
    ensures CommaSep1(s) <==> |s| % 2 == 1 && Alternating(s, 0)
    ensures CommaSep1(s) ==> s[0].Item? && s[|s| - 1].Item?
  {
    if |s| >= 1 {
      CommaItemsShape(s[1..]);
      assert forall i | 1 <= i < |s| :: s[i] == s[1..][i - 1];
      if Alternating(s, 0) {
        assert Alternating(s[1..], 1) by {
          forall j | 0 <= j < |s[1..]| ensures s[1..][j].Comma? <==> (j + 1) % 2 == 1 {
            assert s[1..][j] == s[j + 1];
          }
        }
      }
      if CommaSep1(s) {
        assert s[|s| - 1].Comma? <==> (|s| - 1 + 0) % 2 == 1;
      }
    }
  }

  lemma {:induction false} CommaItemsCount<T>(s: seq<Elem<T>>)
    requires CommaItems(s)
    ensures Commas(s) == |ItemsOf(s)|
  {
    if s != [] {
      CommaItemsCount(s[2..]);
      assert s[1..][1..] == s[2..];
    }
  }

  /** A list of k items carries exactly k - 1 commas. */
  lemma CommaSep1Count<T>(s: seq<Elem<T>>)
    requires CommaSep1(s)
    ensures Commas(s) == |ItemsOf(s)| - 1
  {
    CommaItemsCount(s[1..]);
  }

  /** commaSep accepts the empty sequence and otherwise the alternating
      lists of commaSep1: a non-empty accepted list has one comma fewer than
      items and never ends in a comma. */
  lemma CommaSepShape<T>(s: seq<Elem<T>>)
    ensures CommaSep(s) <==> s == [] || (|s| % 2 == 1 && Alternating(s, 0))
    ensures CommaSep(s) && s != [] ==> Commas(s) == |ItemsOf(s)| - 1 && s[|s| - 1].Item?
  {
    CommaSep1Shape(s);
    if CommaSep(s) && s != [] {
      CommaSep1Count(s);
    }
  }

  /** Printing items with commas gives an accepted list whose items are the
      ones printed. */
  lemma {:induction false} JoinedAccepted<T>(items: seq<T>)
    requires |items| >= 1
    ensures CommaSep1(Joined(items)) && ItemsOf(Joined(items)) == items
    ensures Commas(Joined(items)) == |items| - 1
  {
    var r := Joined(items);
    if |items| > 1 {
      JoinedAccepted(items[1..]);
      var t := Joined(items[1..]);
      SeqFacts.UnconsTwo(Item(items[0]), Comma, t, []);
      assert r == [Item(items[0]), Comma] + t;
      assert r[1..] == [Comma] + t;
      assert r[1..][2..] == t[1..];
      assert r[1..] == [Comma, t[0]] + t[1..];
      SeqFacts.Uncons1(Item(items[0]), [Comma] + t);
      SeqFacts.Uncons1(Comma, t);
      SeqFacts.HeadTail(items);
    }
  }

  /** Every accepted list is the printing of its own items. */
  lemma {:induction false} AcceptedIsJoined<T>(s: seq<Elem<T>>)
    requires CommaSep1(s)
    ensures |ItemsOf(s)| >= 1 && Joined(ItemsOf(s)) == s
  {
    if |s| == 1 {
    } else {
      var t := s[2..];
      assert s[1..][1..] == t;
      assert s[1..][2..] == t[1..];
      assert CommaSep1(t);
      AcceptedIsJoined(t);
      assert ItemsOf(s[1..]) == ItemsOf(t);
      assert ItemsOf(s) == [s[0].value] + ItemsOf(t);
      var items := ItemsOf(s);
      assert items[1..] == ItemsOf(t);
      SeqFacts.FirstTwo(s);
    }
  }

  // ---------------------------------------------------------------------------
  // enumerator_list: `{`, any number of units that each end with a comma
  // (an enumerator and `,`, a preprocessor call and `,`, or a conditional
  // whose every enumerator carries its own comma), then optionally one last
  // member without a comma (an enumerator, a preprocessor call, or a
  // conditional whose enumerators carry none), then `}`. The braces are not
  // part of the token sequence. E is the enumerator; inside a conditional of
  // the _in_enumerator_list instance an item stands for the enumerator
  // together with its comma.

  datatype EnumToken<E> =
    | Enumerator(enumerator: E)
    | Call(directive: string)
    | Cond(block: PreprocIf.Conditional<E>)
    | EnumComma

  /** An enumerator or a preprocessor call: what takes a comma of its own. */
  predicate Member<E>(t: EnumToken<E>) {
    t.Enumerator? || t.Call?
  }

  predicate CondOf<E>(t: EnumToken<E>, sfx: PreprocIf.Suffix) {
    t.Cond? && PreprocIf.WellFormed(t.block, sfx)
  }

  /** The optional last member. */
  predicate Last<E>(t: EnumToken<E>) {
    Member(t) || CondOf(t, PreprocIf.EnumeratorListNoComma)
  }

  predicate EnumeratorBody<E>(s: seq<EnumToken<E>>) {
    s == []
    || (|s| == 1 && Last(s[0]))
    || (|s| >= 2 && Member(s[0]) && s[1].EnumComma? && EnumeratorBody(s[2..]))
    || (|s| >= 1 && CondOf(s[0], PreprocIf.EnumeratorList) && EnumeratorBody(s[1..]))
  }

  /** Each comma directly follows an enumerator or a call. */
  ghost predicate CommasFollowMembers<E>(s: seq<EnumToken<E>>) {
    forall i {:trigger s[i]} | 0 <= i < |s| && s[i].EnumComma? :: i > 0 && Member(s[i - 1])
  }

  /** Each enumerator or call, except one in the last position, is followed
      by a comma. */
  ghost predicate MembersFollowedByComma<E>(s: seq<EnumToken<E>>) {
    forall i {:trigger s[i]} | 0 <= i < |s| - 1 && Member(s[i]) :: s[i + 1].EnumComma?
  }

  /** Conditionals are well formed for one of the two instances, and one
      whose enumerators carry no comma comes last. */
  ghost predicate ConditionalsPlaced<E>(s: seq<EnumToken<E>>) {
    forall i {:trigger s[i]} | 0 <= i < |s| && s[i].Cond? ::
      CondOf(s[i], PreprocIf.EnumeratorList) || (CondOf(s[i], PreprocIf.EnumeratorListNoComma) && i == |s| - 1)
  }

  ghost predicate EnumeratorShape<E>(s: seq<EnumToken<E>>) {
    CommasFollowMembers(s) && MembersFollowedByComma(s) && ConditionalsPlaced(s)
  }

  /** The shape survives dropping a leading unit that does not end in a
      member. */
  lemma ShapeDrop<E>(s: seq<EnumToken<E>>, k: nat)
    requires 1 <= k <= |s| && EnumeratorShape(s) && !Member(s[k - 1])
    ensures EnumeratorShape(s[k..])
  {
    var t := s[k..];
    forall j | 0 <= j < |t| && t[j].EnumComma? ensures j > 0 && Member(t[j - 1]) {
      assert t[j] == s[j + k];
      if j > 0 {
        assert t[j - 1] == s[j + k - 1];
      }
    }
    forall j | 0 <= j < |t| - 1 && Member(t[j]) ensures t[j + 1].EnumComma? {
      assert t[j] == s[j + k] && t[j + 1] == s[j + k + 1];
    }
    forall j | 0 <= j < |t| && t[j].Cond?
      ensures CondOf(t[j], PreprocIf.EnumeratorList) || (CondOf(t[j], PreprocIf.EnumeratorListNoComma) && j == |t| - 1)
    {
      assert t[j] == s[j + k];
    }
  }

  /** The shape extends by a leading unit: a member and its comma, or a
      conditional of the comma-carrying instance. */
  lemma ShapeCons<E>(u: seq<EnumToken<E>>, t: seq<EnumToken<E>>)
    requires EnumeratorShape(t)
    requires (|u| == 2 && Member(u[0]) && u[1].EnumComma?) || (|u| == 1 && CondOf(u[0], PreprocIf.EnumeratorList))
    ensures EnumeratorShape(u + t)
  {
    var s := u + t;
    var k := |u|;
    forall i | 0 <= i < |s| && s[i].EnumComma? ensures i > 0 && Member(s[i - 1]) {
      if i >= k {
        assert s[i] == t[i - k];
        if i > k {
          assert s[i - 1] == t[i - k - 1];
        }
      }
    }
    forall i | 0 <= i < |s| - 1 && Member(s[i]) ensures s[i + 1].EnumComma? {
      if i >= k {
        assert s[i] == t[i - k] && s[i + 1] == t[i + 1 - k];
      }
    }
    forall i | 0 <= i < |s| && s[i].Cond?
      ensures CondOf(s[i], PreprocIf.EnumeratorList) || (CondOf(s[i], PreprocIf.EnumeratorListNoComma) && i == |s| - 1)
    {
      if i >= k {
        assert s[i] == t[i - k];
      }
    }
  }

  lemma {:induction false} BodyHasShape<E>(s: seq<EnumToken<E>>)
    requires EnumeratorBody(s)
    ensures EnumeratorShape(s)
  {
    if |s| == 1 && Last(s[0]) {
    } else if |s| >= 2 && Member(s[0]) && s[1].EnumComma? && EnumeratorBody(s[2..]) {
      BodyHasShape(s[2..]);
      ShapeCons(s[..2], s[2..]);
      assert s[..2] + s[2..] == s;
    } else if |s| >= 1 && CondOf(s[0], PreprocIf.EnumeratorList) && EnumeratorBody(s[1..]) {
      BodyHasShape(s[1..]);
      ShapeCons(s[..1], s[1..]);
      assert s[..1] + s[1..] == s;
    }
  }

  lemma {:induction false} ShapeIsBody<E>(s: seq<EnumToken<E>>)
    requires EnumeratorShape(s)
    ensures EnumeratorBody(s)
    decreases |s|
  {
    if s != [] {
      assert !s[0].EnumComma?;
      if Member(s[0]) {
        if |s| > 1 {
          assert s[1].EnumComma?;
          ShapeDrop(s, 2);
          ShapeIsBody(s[2..]);
        }
      } else {
        assert s[0].Cond?;
        if !CondOf(s[0], PreprocIf.EnumeratorList) {
          assert |s| == 1;
        } else {
          ShapeDrop(s, 1);
          ShapeIsBody(s[1..]);
        }
      }
    }
  }

  /** The enumerator list body, characterised position by position: a comma
      only right after an enumerator or a call, a comma after every
      enumerator and call except optionally the last, and a conditional
      whose enumerators have no commas only in the last position. */
  lemma EnumeratorBodyShape<E>(s: seq<EnumToken<E>>)
    ensures EnumeratorBody(s) <==> EnumeratorShape(s)
  {
    if EnumeratorBody(s) {
      BodyHasShape(s);
    }
    if EnumeratorShape(s) {
      ShapeIsBody(s);
    }
  }

  /** `A, B` and `A, B,` are both enumerator list bodies; `A B` and `, A`
      are not. */
  lemma EnumeratorExamples()
    ensures EnumeratorBody<int>([Enumerator(1), EnumComma, Enumerator(2)])
    ensures EnumeratorBody<int>([Enumerator(1), EnumComma, Enumerator(2), EnumComma])
    ensures !EnumeratorBody<int>([Enumerator(1), Enumerator(2)])
    ensures !EnumeratorBody<int>([EnumComma, Enumerator(1)])
  {
    var a: seq<EnumToken<int>> := [Enumerator(1), EnumComma, Enumerator(2)];
    assert a[2..] == [Enumerator(2)];
    var b: seq<EnumToken<int>> := [Enumerator(1), EnumComma, Enumerator(2), EnumComma];
    assert b[2..] == [Enumerator(2), EnumComma];
    assert b[2..][2..] == [];
  }
}
