/** Regrouping facts about sequence concatenation, stated over plain
    sequences so that proofs about token sequences can cite them without
    unfolding the functions that built those sequences. */
module SeqFacts {
  lemma AppendAssoc<T>(a: seq<T>, b: seq<T>, c: seq<T>)
    ensures a + b + c == a + (b + c)
  {
  }

  lemma AppendEmpty<T>(a: seq<T>)
    ensures a + [] == a && [] + a == a
  {
  }

  /** The first element of x-then-p-then-rest is x, and dropping it leaves the rest. */
  lemma Uncons<T>(x: T, p: seq<T>, rest: seq<T>)
    ensures ([x] + p + rest)[0] == x
    ensures ([x] + p + rest)[1..] == p + rest
  {
  }

  lemma Uncons1<T>(x: T, rest: seq<T>)
    ensures ([x] + rest)[0] == x && ([x] + rest)[1..] == rest
  {
  }

  /** Indexing a concatenation inside its first part. */
  lemma IndexLeft<T>(a: seq<T>, b: seq<T>, i: nat)
    requires i < |a|
    ensures (a + b)[i] == a[i]
  {
  }

  /** Dropping the first part of a concatenation. */
  lemma DropLeft<T>(a: seq<T>, b: seq<T>)
    ensures (a + b)[|a|..] == b
  {
  }

  /** A sequence with its last element split off, then extended. */
  lemma Chain<T>(p: seq<T>, l: seq<T>, op: seq<T>, h: seq<T>, a: seq<T>)
    requires p == l + op && l == h + a
    ensures p == h + (a + op)
  {
  }

  lemma Regroup<T>(a: seq<T>, b: seq<T>, c: seq<T>, d: seq<T>, r: seq<T>)
    ensures a + (b + c) + d + r == a + (b + (c + d + r))
  {
  }

  lemma HeadTail<T>(s: seq<T>)
    requires s != []
    ensures [s[0]] + s[1..] == s
  {
  }

  /** Moving the tail of a nested concatenation out to the end. */
  lemma TailOut3<T>(a: seq<T>, b: seq<T>, c: seq<T>, r: seq<T>)
    ensures a + (b + (c + r)) == a + (b + c) + r
  {
  }

  lemma TailOut4<T>(a: seq<T>, b: seq<T>, c: seq<T>, d: seq<T>, r: seq<T>)
    ensures a + (b + (c + (d + r))) == a + (b + (c + d)) + r
  {
  }

  lemma JoinOut<T>(a: seq<T>, b: seq<T>, c: seq<T>, r: seq<T>)
    ensures a + b + (c + r) == a + (b + c) + r
  {
  }

  lemma JoinOut5<T>(a: seq<T>, b: seq<T>, c: seq<T>, d: seq<T>, e: seq<T>, r: seq<T>)
    ensures a + (b + c) + (d + (e + r)) == a + (b + (c + (d + e))) + r
  {
  }

  /** A sequence of at least two elements is its first two and the rest. */
  lemma FirstTwo<T>(s: seq<T>)
    requires |s| >= 2
    ensures s == [s[0], s[1]] + s[2..]
  {
  }

  /** The first two elements of x-then-y-then-p-then-rest, and what follows them. */
  lemma UnconsTwo<T>(x: T, y: T, p: seq<T>, rest: seq<T>)
    ensures ([x] + ([y] + p) + rest)[0] == x && ([x] + ([y] + p) + rest)[1] == y
    ensures ([x] + ([y] + p) + rest)[2..] == p + rest
  {
  }
}
