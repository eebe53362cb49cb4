/** The text AlphaLab compares, renders and hashes: string order, decimal numerals, joined lines. */
module Text {
  import opened Ordering

  // ------------------------------------------------------------- string order

  /** Python's `a <= b` on `str`: code point by code point. */
  predicate AtMost(a: string, b: string) {
    a == [] || (b != [] && (a[0] < b[0] || (a[0] == b[0] && AtMost(a[1..], b[1..]))))
  }

  lemma {:induction false} AtMostTotal(a: string, b: string)
    ensures AtMost(a, b) || AtMost(b, a)
  {
    if a != [] && b != [] && a[0] == b[0] {
      AtMostTotal(a[1..], b[1..]);
    }
  }

  lemma {:induction false} AtMostChains(a: string, b: string, c: string)
    requires AtMost(a, b) && AtMost(b, c)
    ensures AtMost(a, c)
  {
    if a != [] && a[0] == b[0] && b[0] == c[0] {
      AtMostChains(a[1..], b[1..], c[1..]);
    }
  }

  lemma {:induction false} AtMostBothWays(a: string, b: string)
    requires AtMost(a, b) && AtMost(b, a)
    ensures a == b
  {
    if a != [] {
      AtMostBothWays(a[1..], b[1..]);
      assert a == [a[0]] + a[1..] && b == [b[0]] + b[1..];
    }
  }

  /** `a` begins `b`, or at the first place they differ has the lesser character. */
  lemma {:induction false} AtMostExactly(a: string, b: string)
    ensures AtMost(a, b) <==>
              a <= b || exists k :: 0 <= k < |a| && k < |b| && a[..k] == b[..k] && a[k] < b[k]
  {
    if a != [] && b != [] {
      var x, y := a[1..], b[1..];
      AtMostExactly(x, y);
      assert a == [a[0]] + x && b == [b[0]] + y;
      if a[0] < b[0] {
        assert a[..0] == b[..0];
      } else if a[0] == b[0] {
        if k :| 0 <= k < |x| && k < |y| && x[..k] == y[..k] && x[k] < y[k] {
          assert a[..k + 1] == [a[0]] + x[..k] == b[..k + 1] && a[k + 1] < b[k + 1];
        }
        if k :| 0 <= k < |a| && k < |b| && a[..k] == b[..k] && a[k] < b[k] {
          assert x[..k - 1] == a[..k][1..] == b[..k][1..] == y[..k - 1] && x[k - 1] < y[k - 1];
        }
      } else {
        assert forall k | 0 < k <= |a| && k <= |b| :: a[..k][0] != b[..k][0];
      }
    }
  }

  lemma TextIsOrdered()
    ensures TotalPreorder(AtMost)
  {
    forall a, b ensures AtMost(a, b) || AtMost(b, a) { AtMostTotal(a, b); }
    forall a, b, c | AtMost(a, b) && AtMost(b, c) ensures AtMost(a, c) { AtMostChains(a, b, c); }
  }

  // ----------------------------------------------------------------- numerals

  predicate IsDigit(c: char) { '0' <= c <= '9' }

  function DigitOf(d: nat): (c: char)
    requires d < 10
    ensures IsDigit(c)
  {
    ['0', '1', '2', '3', '4', '5', '6', '7', '8', '9'][d]
  }

  function ValueOf(c: char): (d: nat)
    requires IsDigit(c)
    ensures d < 10
  {
    (c - '0') as nat
  }

  /** `divmod(n, 10)`, stated without division. */
  function TensAndOnes(n: nat): (r: (nat, nat))
    ensures r.1 < 10 && 10 * r.0 + r.1 == n
  {
    if n < 10 then (0, n) else (TensAndOnes(n - 10).0 + 1, TensAndOnes(n - 10).1)
  }

  /** `str(n)`. */
  function Numeral(n: nat): (s: string)
    ensures s != [] && forall c | c in s :: IsDigit(c)
    ensures s[0] == '0' ==> n == 0
    ensures n == 0 ==> s == "0"
    ensures Value(s) == n
  {
    if n < 10 then [DigitOf(n)] else
      var (tens, ones) := TensAndOnes(n);
      var front := Numeral(tens);
      assert (front + [DigitOf(ones)])[..|front|] == front;
      front + [DigitOf(ones)]
  }

  /** `int(s)`, for a string of digits. */
  function Value(s: string): nat
    requires forall c | c in s :: IsDigit(c)
  {
    if s == [] then 0 else 10 * Value(s[..|s| - 1]) + ValueOf(s[|s| - 1])
  }

  /** The numerals `str` writes: digits with no needless leading zero. */
  predicate IsNumeral(s: string) {
    && s != []
    && (forall c | c in s :: IsDigit(c))
    && (s[0] == '0' ==> |s| == 1)
  }

  /** Reading a numeral and writing it again gives the same text. */
  lemma {:induction false} NumeralOfValue(s: string)
    requires IsNumeral(s)
    ensures Numeral(Value(s)) == s
  {
    var n := |s| - 1;
    TakeOneMore(s, n);
    TakeAll(s);
    DigitOfValue(s[n]);
    if n > 0 {
      FrontIsNumeral(s);
      NumeralOfValue(s[..n]);
      NumeralGrows(Value(s[..n]), ValueOf(s[n]));
    } else {
      assert Value(s[..n]) == 0;
    }
  }

  lemma DigitOfValue(c: char)
    requires IsDigit(c)
    ensures DigitOf(ValueOf(c)) == c
  {
  }

  lemma FrontIsNumeral(s: string)
    requires IsNumeral(s) && |s| > 1
    ensures IsNumeral(s[..|s| - 1])
    ensures Numeral(Value(s[..|s| - 1])) == s[..|s| - 1] ==> Value(s[..|s| - 1]) > 0
  {
    assert forall c | c in s[..|s| - 1] :: c in s;
    assert s[..|s| - 1][0] == s[0];
  }

  /** One more digit is one more character. */
  lemma NumeralGrows(front: nat, digit: nat)
    requires digit < 10 && front > 0
    ensures Numeral(10 * front + digit) == Numeral(front) + [DigitOf(digit)]
  {
    assert TensAndOnes(10 * front + digit) == (front, digit);
  }

  /** `f"{n:0{width}d}"`. */
  function Padded(n: nat, width: nat): string {
    var digits := Numeral(n);
    if |digits| < width then Zeros(width - |digits|) + digits else digits
  }

  function Zeros(k: nat): (s: string)
    ensures |s| == k && forall i | 0 <= i < k :: s[i] == '0'
  {
    if k == 0 then "" else "0" + Zeros(k - 1)
  }

  lemma {:induction false} ValueIgnoresZeros(k: nat, s: string)
    requires forall c | c in s :: IsDigit(c)
    ensures (forall c | c in Zeros(k) + s :: IsDigit(c)) && Value(Zeros(k) + s) == Value(s)
    decreases |s|, k
  {
    var whole := Zeros(k) + s;
    if s != [] {
      ValueIgnoresZeros(k, s[..|s| - 1]);
      assert whole[..|whole| - 1] == Zeros(k) + s[..|s| - 1];
    } else if k > 0 {
      ValueIgnoresZeros(k - 1, s);
      assert whole[..|whole| - 1] == Zeros(k - 1) + s;
    }
  }

  /** Padding changes no number. */
  lemma PaddedReads(n: nat, width: nat)
    ensures (forall c | c in Padded(n, width) :: IsDigit(c)) && Value(Padded(n, width)) == n
  {
    var digits := Numeral(n);
    if |digits| < width {
      var k := width - |digits|;
      ValueIgnoresZeros(k, digits);
      assert Padded(n, width) == Zeros(k) + digits;
    }
  }

  lemma {:induction false} NumeralWidens(a: nat, b: nat)
    requires a <= b
    ensures |Numeral(a)| <= |Numeral(b)|
  {
    if a >= 10 {
      NumeralWidens(TensAndOnes(a).0, TensAndOnes(b).0);
    }
  }

  /** Padded to the width of a greater number, every number has that width. */
  lemma PaddedWidth(n: nat, greatest: nat)
    requires n <= greatest
    ensures |Padded(n, |Numeral(greatest)|)| == |Numeral(greatest)|
  {
    NumeralWidens(n, greatest);
  }

  // ---------------------------------------------------------------- blank text

  /** `c.isspace()`. */
  predicate IsSpace(c: char) {
    || '\t' <= c <= '\r' || '\U{1C}' <= c <= ' ' || c == '\U{85}' || c == '\U{A0}' || c == '\U{1680}'
    || '\U{2000}' <= c <= '\U{200A}' || c == '\U{2028}' || c == '\U{2029}' || c == '\U{202F}' || c == '\U{205F}'
    || c == '\U{3000}'
  }

  /** Python's white space, by code point: 29 characters and no other. */
  lemma SpacesExactly(c: char)
    ensures IsSpace(c) <==>
              c as int in [9, 10, 11, 12, 13, 28, 29, 30, 31, 32, 133, 160, 5760, 8192, 8193, 8194, 8195, 8196, 8197,
                           8198, 8199, 8200, 8201, 8202, 8232, 8233, 8239, 8287, 12288]
  {
  }

  /** `not s.strip()`. */
  predicate Blank(s: string) { forall c | c in s :: IsSpace(c) }

  // -------------------------------------------------------------- joined lines

  /** `sep.join(parts)` for a one-character separator. */
  function Join(parts: seq<string>, sep: char): string {
    if parts == [] then "" else if |parts| == 1 then parts[0] else parts[0] + [sep] + Join(parts[1..], sep)
  }

  /** The first position of `c` in `s`, or `|s|`. */
  function Find(s: string, c: char): (i: nat)
    ensures i <= |s| && c !in s[..i]
    ensures i < |s| ==> s[i] == c
    ensures i == |s| <==> c !in s
  {
    if s == [] then 0
    else if s[0] == c then 0
    else
      var i := Find(s[1..], c);
      assert s[..i + 1] == [s[0]] + s[1..][..i];
      assert s == [s[0]] + s[1..];
      i + 1
  }

  /** `s.split(sep)`. */
  function Split(s: string, sep: char): (r: seq<string>)
    ensures r != []
    ensures forall p | p in r :: sep !in p
    decreases |s|
  {
    var i := Find(s, sep);
    if i == |s| then [s] else [s[..i]] + Split(s[i + 1..], sep)
  }

  lemma FindFirst(head: string, sep: char, tail: string)
    requires sep !in head
    ensures Find(head + [sep] + tail, sep) == |head|
  {
    var s := head + [sep] + tail;
    var i := Find(s, sep);
    assert s[|head|] == sep;
    assert forall k | 0 <= k < |head| :: s[k] == head[k] && head[k] in head;
    assert forall k | 0 <= k < i :: s[..i][k] == s[k] && s[k] in s[..i];
  }

  lemma {:induction false} SplitOfJoin(parts: seq<string>, sep: char)
    requires parts != [] && forall p | p in parts :: sep !in p
    ensures Split(Join(parts, sep), sep) == parts
  {
    if |parts| == 1 {
      assert parts[0] in parts;
      assert Find(parts[0], sep) == |parts[0]|;
    } else {
      assert parts[0] in parts;
      SplitOfJoin(parts[1..], sep);
      SplitFirst(parts[0], sep, Join(parts[1..], sep));
    }
  }

  /** Splitting a text on either side of a separator splits it there. */
  lemma {:induction false} SplitAtSeparator(x: string, sep: char, y: string)
    ensures Split(x + [sep] + y, sep) == Split(x, sep) + Split(y, sep)
    decreases |x|
  {
    var i := Find(x, sep);
    if i == |x| {
      SplitFirst(x, sep, y);
    } else {
      var head, rest := x[..i], x[i + 1..];
      SplitFirst(head, sep, rest + [sep] + y);
      SplitAtSeparator(rest, sep, y);
      Around(x, i, sep);
      Rejoined(head, sep, rest, y);
      Regrouped([head], Split(rest, sep), Split(y, sep));
    }
  }

  lemma Around(s: string, i: nat, c: char)
    requires i < |s| && s[i] == c
    ensures s == s[..i] + [c] + s[i + 1..]
  {
  }

  lemma Rejoined(head: string, sep: char, rest: string, y: string)
    ensures head + [sep] + rest + [sep] + y == head + [sep] + (rest + [sep] + y)
  {
  }

  lemma SplitFirst(head: string, sep: char, rest: string)
    requires sep !in head
    ensures Split(head + [sep] + rest, sep) == [head] + Split(rest, sep)
  {
    FindFirst(head, sep, rest);
    var whole := head + [sep] + rest;
    assert whole[..|head|] == head && whole[|head| + 1..] == rest;
  }

  /** Every part split in turn, the pieces laid end to end. */
  function PiecesOf(parts: seq<string>, sep: char): seq<string> {
    if parts == [] then [] else Split(parts[0], sep) + PiecesOf(parts[1..], sep)
  }

  /** Joining forgets where one part ended: a joined text splits into the pieces of its parts. */
  lemma {:induction false} SplitOfAnyJoin(parts: seq<string>, sep: char)
    requires parts != []
    ensures Split(Join(parts, sep), sep) == PiecesOf(parts, sep)
  {
    if |parts| == 1 {
      assert PiecesOf(parts, sep) == Split(parts[0], sep) + [];
    } else {
      SplitOfAnyJoin(parts[1..], sep);
      SplitAtSeparator(parts[0], sep, Join(parts[1..], sep));
    }
  }

  lemma {:induction false} JoinOfSplit(s: string, sep: char)
    ensures Join(Split(s, sep), sep) == s
    decreases |s|
  {
    var i := Find(s, sep);
    if i < |s| {
      JoinOfSplit(s[i + 1..], sep);
      JoinFirst(s[..i], Split(s[i + 1..], sep), sep);
      Around(s, i, sep);
    }
  }

  lemma JoinFirst(head: string, rest: seq<string>, sep: char)
    requires rest != []
    ensures Join([head] + rest, sep) == head + [sep] + Join(rest, sep)
  {
    assert ([head] + rest)[1..] == rest;
  }

  /** Two lists join to one text exactly when their parts fall into the same pieces. */
  lemma JoinsAgreeExactly(a: seq<string>, b: seq<string>, sep: char)
    requires a != [] && b != []
    ensures Join(a, sep) == Join(b, sep) <==> PiecesOf(a, sep) == PiecesOf(b, sep)
  {
    SplitOfAnyJoin(a, sep);
    SplitOfAnyJoin(b, sep);
    JoinOfSplit(Join(a, sep), sep);
    JoinOfSplit(Join(b, sep), sep);
  }

  /** Every part comes to a piece or more; to one each exactly when none holds the separator. */
  lemma {:induction false} PiecesAtLeast(parts: seq<string>, sep: char)
    ensures |PiecesOf(parts, sep)| >= |parts|
    ensures |PiecesOf(parts, sep)| == |parts| ==> PiecesOf(parts, sep) == parts
    ensures Free(PiecesOf(parts, sep), sep)
  {
    if parts != [] {
      PiecesAtLeast(parts[1..], sep);
      if |PiecesOf(parts, sep)| == |parts| {
        assert |Split(parts[0], sep)| == 1;
        assert parts == [parts[0]] + parts[1..];
      }
    }
  }

  lemma JoinPair(x: string, y: string, sep: char)
    ensures Join([x, y], sep) == x + [sep] + y
  {
    assert [x, y][1..] == [y];
  }

  /** A join divides at any boundary. */
  lemma {:induction false} JoinDivides(parts: seq<string>, k: nat, sep: char)
    requires 0 < k < |parts|
    ensures Join(parts, sep) == Join(parts[..k], sep) + [sep] + Join(parts[k..], sep)
  {
    if k == 1 {
      assert parts[..1] == [parts[0]];
    } else {
      JoinDivides(parts[1..], k - 1, sep);
      assert parts[1..][..k - 1] == parts[1..k] && parts[1..][k - 1..] == parts[k..];
      assert parts[..k][1..] == parts[1..k];
      Rejoined(parts[0], sep, Join(parts[1..k], sep), Join(parts[k..], sep));
    }
  }

  ghost predicate Free(parts: seq<string>, sep: char) { forall p | p in parts :: sep !in p }

  /** A list is the only separator-free one joined to its text exactly when it is separator-free itself. */
  lemma OnlyFreeListExactly(a: seq<string>, sep: char)
    requires a != []
    ensures (forall b | b != [] && Free(b, sep) && Join(b, sep) == Join(a, sep) :: b == a) <==> Free(a, sep)
  {
    var pieces := Split(Join(a, sep), sep);
    JoinOfSplit(Join(a, sep), sep);
    assert Free(pieces, sep);
    forall b | b != [] && Free(b, sep) && Join(b, sep) == Join(a, sep) ensures b == pieces {
      SplitOfJoin(b, sep);
    }
  }

  /** A joined text splits back into its parts exactly when there is one and none holds the separator. */
  lemma SplitOfJoinExactly(parts: seq<string>, sep: char)
    ensures Split(Join(parts, sep), sep) == parts <==> parts != [] && forall p | p in parts :: sep !in p
  {
    if parts != [] && forall p | p in parts :: sep !in p {
      SplitOfJoin(parts, sep);
    }
  }
}
