// The comment token: a line comment, two slashes and the rest of the line,
// where a backslash splices the next line on; or a block comment, from its
// opener up to and including the first closer that follows the opener.
module Comments {

  predicate AllBackslashes(s: string) {
    forall i | 0 <= i < |s| :: s[i] == '\\'
  }

  // ---------------------------------------------------------------------------
  // Line comments: '//' and then /(\\+(.|\r?\n)|[^\\\n])*/.

  /** Each repetition is either one character other than a backslash and a
      newline, or a run of backslashes followed by one character (the `.` of
      the pattern takes any character but a newline, the alternative takes a
      newline) or by a carriage return and a newline. */
  predicate LineBody(b: string)
    decreases |b|
  {
    b == []
    || (b[0] != '\\' && b[0] != '\n' && LineBody(b[1..]))
    || (exists k | 1 <= k < |b| :: AllBackslashes(b[..k])
          && (LineBody(b[k + 1..])
              || (k + 1 < |b| && b[k] == '\r' && b[k + 1] == '\n' && LineBody(b[k + 2..]))))
  }

  predicate IsLineComment(s: string) {
    |s| >= 2 && s[0] == '/' && s[1] == '/' && LineBody(s[2..])
  }

  /** Every newline at or after position from comes right after a backslash,
      or after a backslash and a carriage return. */
  predicate SplicedFrom(b: string, from: int) {
    forall i {:trigger b[i]} | from <= i < |b| && 0 <= i && b[i] == '\n' ::
      i > 0 && (b[i - 1] == '\\' || (i > 1 && b[i - 1] == '\r' && b[i - 2] == '\\'))
  }

  predicate Spliced(b: string) {
    SplicedFrom(b, 0)
  }

  lemma SplicedShift(b: string, d: nat)
    requires d <= |b| && Spliced(b[d..])
    ensures SplicedFrom(b, d)
  {
    forall i | d <= i < |b| && b[i] == '\n'
      ensures i > 0 && (b[i - 1] == '\\' || (i > 1 && b[i - 1] == '\r' && b[i - 2] == '\\'))
    {
      assert b[d..][i - d] == b[i];
      assert b[d..][i - d - 1] == b[i - 1];
      if i - d > 1 {
        assert b[d..][i - d - 2] == b[i - 2];
      }
    }
  }

  /** In the body of a line comment a raw newline only ever follows a
      backslash, possibly with a carriage return in between. */
  lemma {:induction false} LineBodySpliced(b: string)
    requires LineBody(b)
    ensures Spliced(b)
    decreases |b|
  {
    if b != [] {
      if b[0] != '\\' && b[0] != '\n' && LineBody(b[1..]) {
        LineBodySpliced(b[1..]);
        SplicedShift(b, 1);
      } else {
        var k :| 1 <= k < |b| && AllBackslashes(b[..k])
          && (LineBody(b[k + 1..]) || (k + 1 < |b| && b[k] == '\r' && b[k + 1] == '\n' && LineBody(b[k + 2..])));
        assert b[..k][k - 1] == b[k - 1];
        forall i | 0 <= i < k ensures b[i] != '\n' {
          assert b[..k][i] == b[i];
        }
        if LineBody(b[k + 1..]) {
          LineBodySpliced(b[k + 1..]);
          SplicedShift(b, k + 1);
        } else {
          LineBodySpliced(b[k + 2..]);
          SplicedShift(b, k + 2);
        }
      }
    }
  }

  /** A line comment has a raw newline only directly after a backslash (or a
      backslash and a carriage return): the line ends at the first newline
      that is not spliced. */
  lemma LineCommentSpliced(s: string)
    requires IsLineComment(s)
    ensures Spliced(s)
  {
    LineBodySpliced(s[2..]);
    SplicedShift(s, 2);
  }

  // ---------------------------------------------------------------------------
  // Block comments: '/*', then /[^*]*\*+([^/*][^*]*\*+)*/, then '/'.

  predicate NoStar(s: string) {
    forall i | 0 <= i < |s| :: s[i] != '*'
  }

  predicate AllStars(s: string) {
    forall i | 0 <= i < |s| :: s[i] == '*'
  }

  /** [^*]* followed by StarsThen. */
  predicate BlockBody(x: string)
    decreases |x|, 1
  {
    exists k | 0 <= k < |x| :: NoStar(x[..k]) && StarsThen(x[k..])
  }

  // A run of stars, then either the end or one character other than `/`
  // and `*` and another BlockBody: the repetition ([^/*][^*]*\*+)* of the
  // pattern read one round at a time.
  predicate StarsThen(y: string)
    decreases |y|, 0
  {
    exists m | 1 <= m <= |y| :: AllStars(y[..m])
      && (m == |y| || (y[m] != '/' && y[m] != '*' && BlockBody(y[m + 1..])))
  }

  predicate IsBlockComment(s: string) {
    |s| >= 3 && s[0] == '/' && s[1] == '*' && s[|s| - 1] == '/' && BlockBody(s[2..|s| - 1])
  }

  predicate IsComment(s: string) {
    IsLineComment(s) || IsBlockComment(s)
  }

  /** No `*` directly followed by `/`. */
  predicate NoCloser(x: string) {
    forall i {:trigger x[i]} | 0 <= i < |x| - 1 :: !(x[i] == '*' && x[i + 1] == '/')
  }

  /** What lies between the opener and the final `/`: ends with `*` and
      holds no earlier closer. */
  predicate ClosedBody(x: string) {
    x != [] && x[|x| - 1] == '*' && NoCloser(x)
  }

  lemma NoCloserJoin(a: string, b: string)
    requires NoCloser(a) && NoCloser(b)
    requires a != [] && b != [] ==> !(a[|a| - 1] == '*' && b[0] == '/')
    ensures NoCloser(a + b)
  {
    var x := a + b;
    forall i | 0 <= i < |x| - 1 ensures !(x[i] == '*' && x[i + 1] == '/') {
      if i + 1 < |a| {
        assert x[i] == a[i] && x[i + 1] == a[i + 1];
      } else if i >= |a| {
        assert x[i] == b[i - |a|] && x[i + 1] == b[i - |a| + 1];
      }
    }
  }

  lemma {:induction false} BodyCloses(x: string)
    requires BlockBody(x)
    ensures ClosedBody(x)
    decreases |x|, 1
  {
    var k :| 0 <= k < |x| && NoStar(x[..k]) && StarsThen(x[k..]);
    StarsClose(x[k..]);
    assert x == x[..k] + x[k..];
    if k > 0 {
      assert x[..k][k - 1] != '*';
    }
    NoCloserJoin(x[..k], x[k..]);
  }

  lemma CutAt(y: string, m: nat)
    requires m < |y|
    ensures y == y[..m] + ([y[m]] + y[m + 1..])
  {
  }

  /** A run of stars, a character other than `/` and `*`, and a closed body
      make a closed body again. */
  lemma StarsThenClosed(stars: string, c: char, r: string)
    requires stars != [] && AllStars(stars) && c != '/' && c != '*' && ClosedBody(r)
    ensures ClosedBody(stars + ([c] + r)) && (stars + ([c] + r))[0] == '*'
  {
    NoCloserJoin([c], r);
    NoCloserJoin(stars, [c] + r);
    assert (stars + ([c] + r))[|stars + ([c] + r)| - 1] == r[|r| - 1];
  }

  lemma {:induction false} StarsClose(y: string)
    requires StarsThen(y)
    ensures ClosedBody(y) && y[0] == '*'
    decreases |y|, 0
  {
    var m :| 1 <= m <= |y| && AllStars(y[..m])
      && (m == |y| || (y[m] != '/' && y[m] != '*' && BlockBody(y[m + 1..])));
    assert y[..m][0] == y[0];
    if m == |y| {
      assert y[..m] == y;
    } else {
      BodyCloses(y[m + 1..]);
      StarsThenClosed(y[..m], y[m], y[m + 1..]);
      CutAt(y, m);
    }
  }

  /** The first index at or after from that holds c, or |x|. */
  function NextIs(x: string, from: nat, c: char): (n: nat)
    requires from <= |x|
    ensures from <= n <= |x| && (n < |x| ==> x[n] == c)
    ensures forall i | from <= i < n :: x[i] != c
    decreases |x| - from
  {
    if from == |x| || x[from] == c then from else NextIs(x, from + 1, c)
  }

  /** The first index at or after from that does not hold `*`, or |x|. */
  function StarsEnd(x: string, from: nat): (n: nat)
    requires from <= |x|
    ensures from <= n <= |x| && (n < |x| ==> x[n] != '*')
    ensures forall i | from <= i < n :: x[i] == '*'
    decreases |x| - from
  {
    if from == |x| || x[from] != '*' then from else StarsEnd(x, from + 1)
  }

  lemma {:induction false} ClosedIsBody(x: string)
    requires ClosedBody(x)
    ensures BlockBody(x)
    decreases |x|
  {
    var k := NextIs(x, 0, '*');
    var e := StarsEnd(x, k);
    var y := x[k..];
    assert e > k;
    var run := y[..e - k];
    assert AllStars(run) by {
      forall i | 0 <= i < |run| ensures run[i] == '*' {
        assert run[i] == x[k + i];
      }
    }
    if e < |x| {
      assert x[e - 1] == '*';
      var r := x[e + 1..];
      assert r[|r| - 1] == x[|x| - 1];
      assert NoCloser(r) by {
        forall i | 0 <= i < |r| - 1 ensures !(r[i] == '*' && r[i + 1] == '/') {
          assert r[i] == x[e + 1 + i] && r[i + 1] == x[e + 2 + i];
        }
      }
      ClosedIsBody(r);
      assert y[e - k + 1..] == r;
      assert y[e - k] == x[e];
    } else {
      assert e - k == |y|;
    }
    assert StarsThen(y);
    assert NoStar(x[..k]) by {
      forall i | 0 <= i < k ensures x[..k][i] != '*' {
        assert x[..k][i] == x[i];
      }
    }
  }

  /** The body of a block comment is exactly a string that ends with `*`
      and in which no `*` is directly followed by `/`. */
  lemma BlockBodyIsClosed(x: string)
    ensures BlockBody(x) <==> ClosedBody(x)
  {
    if BlockBody(x) {
      BodyCloses(x);
    }
    if ClosedBody(x) {
      ClosedIsBody(x);
    }
  }

  /** A block comment is the opener, then text, then the closer, where the
      text and the closer's `*` hold no earlier closer: the comment ends at
      the first closer after the opener, and the opener's own `*` cannot
      close it. */
  lemma BlockCommentEndsAtFirstCloser(s: string)
    ensures IsBlockComment(s) <==>
      |s| >= 4 && s[0] == '/' && s[1] == '*' && s[|s| - 2] == '*' && s[|s| - 1] == '/'
      && forall i | 2 <= i < |s| - 2 :: !(s[i] == '*' && s[i + 1] == '/')
  {
    if |s| >= 3 {
      var x := s[2..|s| - 1];
      BlockBodyIsClosed(x);
      if ClosedBody(x) {
        forall i | 2 <= i < |s| - 2 ensures !(s[i] == '*' && s[i + 1] == '/') {
          if i < |s| - 3 {
            assert x[i - 2] == s[i] && x[i - 1] == s[i + 1];
          } else {
            assert x[|x| - 1] == s[i + 1];
          }
        }
      }
      if forall i | 2 <= i < |s| - 2 :: !(s[i] == '*' && s[i + 1] == '/') {
        forall i | 0 <= i < |x| - 1 ensures !(x[i] == '*' && x[i + 1] == '/') {
          assert x[i] == s[i + 2] && x[i + 1] == s[i + 3];
        }
      }
    }
  }

  // ---------------------------------------------------------------------------
  // Examples.

  // "/**/" is the shortest block comment; in "/* a */ b */" the first
  // closer ends the comment, so the whole text is not one.
  lemma BlockCommentExamples()
    ensures IsBlockComment("/**/")
    ensures !IsBlockComment("/* a */ b */")
  {
    BlockCommentEndsAtFirstCloser("/**/");
    var t := "/* a */ b */";
    BlockCommentEndsAtFirstCloser(t);
    assert t[5] == '*' && t[6] == '/';
  }

  lemma PlainThen(c: char, r: string)
    requires c != '\\' && c != '\n' && LineBody(r)
    ensures LineBody([c] + r)
  {
    assert ([c] + r)[1..] == r;
  }

  lemma SpliceThen(c: char, r: string)
    requires LineBody(r)
    ensures LineBody(['\\', c] + r)
  {
    var b := ['\\', c] + r;
    assert AllBackslashes(b[..1]) && b[2..] == r;
  }

  /** A backslash splices the next line into a line comment. */
  lemma SplicedLineAccepted()
    ensures IsLineComment("// a\\\nb")
  {
    PlainThen('b', "");
    assert ['b'] + "" == "b";
    SpliceThen('\n', "b");
    assert ['\\', '\n'] + "b" == "\\\nb";
    PlainThen('a', "\\\nb");
    assert ['a'] + "\\\nb" == "a\\\nb";
    PlainThen(' ', "a\\\nb");
    assert [' '] + "a\\\nb" == " a\\\nb";
    assert "// a\\\nb"[2..] == " a\\\nb";
  }

  lemma NewlineAt(s: string, i: nat)
    requires Spliced(s) && i < |s| && s[i] == '\n'
    ensures i > 0 && (s[i - 1] == '\\' || (i > 1 && s[i - 1] == '\r' && s[i - 2] == '\\'))
  {
  }

  /** Without a backslash the newline ends the comment. */
  lemma UnsplicedNewlineRejected()
    ensures !IsLineComment("// a\nb")
  {
    var t := "// a\nb";
    if IsLineComment(t) {
      LineCommentSpliced(t);
      NewlineAt(t, 4);
    }
  }
}
