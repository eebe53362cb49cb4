/**
 Texts that fall into the same lines. Joined by newlines, texts that are not blank and
 not repeated can be divided among themselves in other ways, or in no other way.
 */
module Lines {
  import opened Ordering
  import opened Text

  const NEWLINE: char := '\n'

  /** Two texts or more, none blank, none given twice. */
  ghost predicate Fit(texts: seq<string>) {
    |texts| >= 2 && Distinct(texts) && forall t | t in texts :: !Blank(t)
  }

  function LinesIn(texts: seq<string>): seq<string> { PiecesOf(texts, NEWLINE) }

  /** Only lines `i` and the next hold anything. */
  ghost predicate AdjacentPair(lines: seq<string>, i: nat) {
    i + 1 < |lines| && forall k | 0 <= k < |lines| :: Blank(lines[k]) <==> k != i && k != i + 1
  }

  /** Two lines, one of them blank, and the same two lines again. */
  ghost predicate PairTwice(lines: seq<string>) {
    |lines| == 4 && lines[0] == lines[2] && lines[1] == lines[3] && (Blank(lines[0]) <==> !Blank(lines[1]))
  }

  /** Lines that divide in one way only. */
  ghost predicate OneWay(lines: seq<string>) {
    PairTwice(lines) || exists i :: AdjacentPair(lines, i)
  }

  // ------------------------------------------------------------- blank or solid

  lemma BlankConcat(x: string, y: string)
    ensures Blank(x + y) <==> Blank(x) && Blank(y)
  {
    if Blank(x + y) {
      assert forall c | c in x :: c in x + y;
      assert forall c | c in y :: c in x + y;
    }
  }

  /** A joined text is blank exactly when every part is: the newline is itself a space. */
  lemma {:induction false} BlankJoin(parts: seq<string>)
    ensures Blank(Join(parts, NEWLINE)) <==> forall p | p in parts :: Blank(p)
  {
    if |parts| == 1 {
      assert parts == [parts[0]];
    } else if |parts| > 1 {
      BlankJoin(parts[1..]);
      BlankConcat(parts[0] + [NEWLINE], Join(parts[1..], NEWLINE));
      BlankConcat(parts[0], [NEWLINE]);
      assert parts == [parts[0]] + parts[1..];
    }
  }

  /** A text that holds something holds it on some line. */
  lemma SolidLine(text: string) returns (k: nat)
    requires !Blank(text)
    ensures k < |Split(text, NEWLINE)| && !Blank(Split(text, NEWLINE)[k])
  {
    JoinOfSplit(text, NEWLINE);
    BlankJoin(Split(text, NEWLINE));
    var line :| line in Split(text, NEWLINE) && !Blank(line);
    k :| 0 <= k < |Split(text, NEWLINE)| && Split(text, NEWLINE)[k] == line;
  }

  /** The first text's lines come first. */
  lemma FirstLines(texts: seq<string>) returns (c: nat)
    requires texts != []
    ensures c == |Split(texts[0], NEWLINE)| <= |LinesIn(texts)|
    ensures LinesIn(texts)[..c] == Split(texts[0], NEWLINE) && LinesIn(texts)[c..] == LinesIn(texts[1..])
  {
    c := |Split(texts[0], NEWLINE)|;
  }

  /** Two texts that are not blank put a solid line on either side of the first boundary. */
  lemma SolidOnBothSides(texts: seq<string>) returns (c: nat, i: nat, j: nat)
    requires Fit(texts)
    ensures i < c <= j < |LinesIn(texts)| && !Blank(LinesIn(texts)[i]) && !Blank(LinesIn(texts)[j])
    ensures c == |Split(texts[0], NEWLINE)| && LinesIn(texts)[c..] == LinesIn(texts[1..])
  {
    assert texts[0] in texts && texts[1] in texts;
    c := FirstLines(texts);
    i := SolidLine(texts[0]);
    var d := FirstLines(texts[1..]);
    var k := SolidLine(texts[1]);
    j := c + k;
    PlacedAfter(LinesIn(texts), c, i, k);
    assert LinesIn(texts[1..])[k] == LinesIn(texts[1..])[..d][k];
  }

  /** Three texts put solid lines at three places. */
  lemma ThirdSolid(texts: seq<string>) returns (i: nat, j: nat, k: nat)
    requires Fit(texts) && |texts| > 2
    ensures i < j < k < |LinesIn(texts)|
    ensures !Blank(LinesIn(texts)[i]) && !Blank(LinesIn(texts)[j]) && !Blank(LinesIn(texts)[k])
  {
    assert texts[0] in texts;
    var c := FirstLines(texts);
    i := SolidLine(texts[0]);
    FitRest(texts);
    var d, m, n := SolidOnBothSides(texts[1..]);
    j, k := c + m, c + n;
    PlacedAfter(LinesIn(texts), c, i, m);
    PlacedAfter(LinesIn(texts), c, i, n);
  }

  lemma FitRest(texts: seq<string>)
    requires Fit(texts) && |texts| > 2
    ensures Fit(texts[1..])
  {
    assert forall t | t in texts[1..] :: t in texts;
  }

  lemma PlacedAfter(lines: seq<string>, c: nat, i: nat, m: nat)
    requires i < c && c + m < |lines|
    ensures lines[..c][i] == lines[i] && lines[c..][m] == lines[c + m]
  {
  }

  // ------------------------------------------------------------------- dividing

  /** The lines divided in two before line `c`. */
  function Cut(lines: seq<string>, c: nat): seq<string>
    requires c <= |lines|
  {
    [Join(lines[..c], NEWLINE), Join(lines[c..], NEWLINE)]
  }

  /** Two texts are their own lines, cut between them. */
  lemma TwoTextsAreACut(texts: seq<string>, c: nat)
    requires |texts| == 2 && c == |Split(texts[0], NEWLINE)|
    ensures c <= |LinesIn(texts)| && texts == Cut(LinesIn(texts), c)
  {
    var d := FirstLines(texts);
    JoinOfSplit(texts[0], NEWLINE);
    JoinOfSplit(texts[1], NEWLINE);
    assert texts[1..] == [texts[1]];
    SplitOfAnyJoin(texts[1..], NEWLINE);
  }

  /** A cut with a solid line on either side, and different lines on either side, is fit. */
  lemma CutIsFit(lines: seq<string>, c: nat, i: nat, j: nat)
    requires Free(lines, NEWLINE) && i < c <= j < |lines| && !Blank(lines[i]) && !Blank(lines[j])
    requires lines[..c] != lines[c..]
    ensures Fit(Cut(lines, c)) && LinesIn(Cut(lines, c)) == lines
  {
    var front, back := lines[..c], lines[c..];
    assert front[i] in front && back[j - c] in back;
    LinesOfCut(lines, c);
    BlankJoin(front);
    BlankJoin(back);
  }

  lemma LinesOfCut(lines: seq<string>, c: nat)
    requires Free(lines, NEWLINE) && 0 < c < |lines|
    ensures LinesIn(Cut(lines, c)) == lines
    ensures lines[..c] != lines[c..] ==> Join(lines[..c], NEWLINE) != Join(lines[c..], NEWLINE)
  {
    SplitOfCut(lines, c);
    LinesOfTwo(Join(lines[..c], NEWLINE), Join(lines[c..], NEWLINE));
    SplitAt(lines, c);
  }

  lemma SplitOfCut(lines: seq<string>, c: nat)
    requires Free(lines, NEWLINE) && 0 < c < |lines|
    ensures Split(Join(lines[..c], NEWLINE), NEWLINE) == lines[..c]
    ensures Split(Join(lines[c..], NEWLINE), NEWLINE) == lines[c..]
  {
    assert Free(lines[..c], NEWLINE) && Free(lines[c..], NEWLINE);
    SplitOfJoin(lines[..c], NEWLINE);
    SplitOfJoin(lines[c..], NEWLINE);
  }

  lemma LinesOfTwo(x: string, y: string)
    ensures LinesIn([x, y]) == Split(x, NEWLINE) + Split(y, NEWLINE)
  {
    assert [x, y][1..] == [y] && [y][1..] == [];
    assert PiecesOf([y], NEWLINE) == Split(y, NEWLINE) + PiecesOf([], NEWLINE);
  }

  lemma CutsDiffer(lines: seq<string>, c: nat, d: nat)
    requires Free(lines, NEWLINE) && 0 < c < d <= |lines|
    ensures Cut(lines, c) != Cut(lines, d)
  {
    assert Free(lines[..c], NEWLINE) && Free(lines[..d], NEWLINE);
    SplitOfJoin(lines[..c], NEWLINE);
    SplitOfJoin(lines[..d], NEWLINE);
    assert |lines[..c]| != |lines[..d]|;
    assert Cut(lines, c)[0] != Cut(lines, d)[0];
  }

  // ------------------------------------------------------------ one way, or more

  /** A pair of neighbouring solid lines is cut between them. */
  lemma AdjacentPairIsCut(texts: seq<string>, i: nat)
    requires Fit(texts) && AdjacentPair(LinesIn(texts), i)
    ensures texts == Cut(LinesIn(texts), i + 1)
  {
    if |texts| > 2 {
      var p, q, r := ThirdSolid(texts);
      assert false;
    }
    var c, p, q := SolidOnBothSides(texts);
    TwoTextsAreACut(texts, c);
  }

  /** A pair given twice is cut before its second line or after its third, never in the middle. */
  lemma PairTwiceIsCut(texts: seq<string>)
    requires Fit(texts) && PairTwice(LinesIn(texts))
    ensures texts == Cut(LinesIn(texts), if Blank(LinesIn(texts)[0]) then 3 else 1)
  {
    var lines := LinesIn(texts);
    if |texts| > 2 {
      var p, q, r := ThirdSolid(texts);
      assert false;
    }
    var c, p, q := SolidOnBothSides(texts);
    TwoTextsAreACut(texts, c);
    SameElements(lines[..2], lines[2..]);
    assert c != 2;
  }

  lemma OneWayIsOneWay(a: seq<string>, b: seq<string>)
    requires Fit(a) && Fit(b) && LinesIn(a) == LinesIn(b) && OneWay(LinesIn(a))
    ensures a == b
  {
    if PairTwice(LinesIn(a)) {
      PairTwiceIsCut(a);
      PairTwiceIsCut(b);
    } else {
      var i :| AdjacentPair(LinesIn(a), i);
      AdjacentPairIsCut(a, i);
      AdjacentPairIsCut(b, i);
    }
  }

  /** The first and the last line that hold anything. */
  ghost predicate Ends(lines: seq<string>, i: nat, j: nat) {
    && i < j < |lines| && !Blank(lines[i]) && !Blank(lines[j])
    && forall k | 0 <= k < |lines| && !Blank(lines[k]) :: i <= k <= j
  }

  lemma EndsExist(lines: seq<string>, p: nat, q: nat) returns (i: nat, j: nat)
    requires p < q < |lines| && !Blank(lines[p]) && !Blank(lines[q])
    ensures Ends(lines, i, j)
  {
    i := 0;
    while Blank(lines[i])
      invariant i <= p && forall k | 0 <= k < i :: Blank(lines[k])
      decreases p - i
    {
      i := i + 1;
    }
    j := |lines| - 1;
    while Blank(lines[j])
      invariant q <= j < |lines| && forall k | j < k < |lines| :: Blank(lines[k])
      decreases j
    {
      j := j - 1;
    }
  }

  /** Halves alike, between ends two lines apart, are a pair given twice. */
  lemma HalvesAlike(lines: seq<string>, i: nat, c: nat)
    requires Ends(lines, i, i + 2) && i < c <= i + 2 && lines[..c] == lines[c..]
    ensures PairTwice(lines)
  {
    assert |lines| == 2 * c;
    assert forall k | 0 <= k < c :: lines[k] == lines[..c][k] == lines[c..][k] == lines[c + k];
    assert c == 2;
  }

  /** Of three cuts in a row at most one falls between like halves. */
  lemma AnotherCut(lines: seq<string>, i: nat, j: nat, a: seq<string>) returns (c: nat)
    requires Free(lines, NEWLINE) && Ends(lines, i, j) && i + 2 <= j && !PairTwice(lines)
    ensures i < c <= j && lines[..c] != lines[c..] && Cut(lines, c) != a
  {
    CutsDiffer(lines, i + 1, i + 2);
    if j == i + 2 {
      if lines[..i + 1] == lines[i + 1..] {
        HalvesAlike(lines, i, i + 1);
      }
      if lines[..i + 2] == lines[i + 2..] {
        HalvesAlike(lines, i, i + 2);
      }
      c := if Cut(lines, i + 1) == a then i + 2 else i + 1;
    } else {
      CutsDiffer(lines, i + 1, i + 3);
      CutsDiffer(lines, i + 2, i + 3);
      c := ThirdCut(lines, i, a);
    }
  }

  lemma ThirdCut(lines: seq<string>, i: nat, a: seq<string>) returns (c: nat)
    requires i + 3 < |lines|
    requires Cut(lines, i + 1) != Cut(lines, i + 2) && Cut(lines, i + 1) != Cut(lines, i + 3)
             && Cut(lines, i + 2) != Cut(lines, i + 3)
    ensures i < c <= i + 3 && lines[..c] != lines[c..] && Cut(lines, c) != a
  {
    var n := |lines|;
    assert forall d | 0 <= d <= n && n != 2 * d :: |lines[..d]| != |lines[d..]|;
    if n != 2 * (i + 1) && Cut(lines, i + 1) != a {
      c := i + 1;
    } else if n != 2 * (i + 2) && Cut(lines, i + 2) != a {
      c := i + 2;
    } else {
      c := i + 3;
    }
  }

  /** Fit texts are the only ones with their joined text exactly when their lines divide in one way. */
  lemma OnlyDivisionExactly(a: seq<string>)
    requires Fit(a)
    ensures (forall b | Fit(b) && Join(b, NEWLINE) == Join(a, NEWLINE) :: b == a) <==> OneWay(LinesIn(a))
  {
    var lines := LinesIn(a);
    if OneWay(lines) {
      forall b | Fit(b) && Join(b, NEWLINE) == Join(a, NEWLINE) ensures b == a {
        JoinsAgreeExactly(a, b, NEWLINE);
        OneWayIsOneWay(a, b);
      }
    } else {
      var b := AnotherDivision(a);
    }
  }

  lemma AnotherDivision(a: seq<string>) returns (b: seq<string>)
    requires Fit(a) && !OneWay(LinesIn(a))
    ensures Fit(b) && Join(b, NEWLINE) == Join(a, NEWLINE) && b != a
  {
    var lines := LinesIn(a);
    PiecesAtLeast(a, NEWLINE);
    var _, p, q := SolidOnBothSides(a);
    var i, j := EndsExist(lines, p, q);
    if j == i + 1 {
      assert AdjacentPair(lines, i);
    }
    var c := AnotherCut(lines, i, j, a);
    CutIsFit(lines, c, i, j);
    b := Cut(lines, c);
    JoinsAgreeExactly(a, b, NEWLINE);
  }
}
