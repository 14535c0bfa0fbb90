/** The word wrapping of util.rs: `wrap_text_by`, which drains greedy rows off a
    text, and `get_text_size_wrap`, which wraps every line of a text and sums
    the rows up. `GetTextExtentPoint32W` is the parameter `measure`. */
module TextWrap {
  import opened Integers
  import opened Errors

  /** `SIZE`: a width `cx` and a height `cy`. */
  datatype Size = Size(cx: int, cy: int)

  /** One wrapped row: its code units and the size measured for them. */
  datatype Row = Row(text: seq<u16>, size: Size)

  /** The text measurement of the device context. */
  type Measure = seq<u16> -> Size

  /** A bound of -1 means "no limit on this axis". */
  const UNBOUNDED := -1
  const NEWLINE: u16 := 0x0A
  const SPACE: u16 := 0x20

  /** `slice::split(|c| *c == d)`: the pieces between delimiters; there is
      always one more piece than delimiters, so an empty text is one empty piece. */
  function Split(s: seq<u16>, d: u16): (r: seq<seq<u16>>)
    ensures |r| >= 1
    ensures forall k :: 0 <= k < |r| ==> d !in r[k]
    decreases |s|
  {
    if |s| == 0 then [[]]
    else
      var rest := Split(s[1..], d);
      if s[0] == d then [[]] + rest
      else [[s[0]] + rest[0]] + rest[1..]
  }

  /** `join(&d)`: the pieces with one delimiter between neighbours. */
  function Join(ps: seq<seq<u16>>, d: u16): (r: seq<u16>)
    decreases |ps|
  {
    if |ps| == 0 then [] else if |ps| == 1 then ps[0] else ps[0] + [d] + Join(ps[1..], d)
  }

  /** Joining the pieces again gives the text back. */
  lemma {:induction false} SplitJoin(s: seq<u16>, d: u16)
    ensures Join(Split(s, d), d) == s
    decreases |s|
  {
    if |s| > 0 {
      SplitJoin(s[1..], d);
      var rest := Split(s[1..], d);
      if s[0] == d {
        assert ([[]] + rest)[1..] == rest;
      } else {
        var ps := [[s[0]] + rest[0]] + rest[1..];
        assert ps[1..] == rest[1..];
        if |rest| > 1 {
          assert Join(rest, d) == rest[0] + [d] + Join(rest[1..], d);
        }
      }
      assert s == [s[0]] + s[1..];
    }
  }

  /** Splitting a piece, a delimiter and more text. */
  lemma {:induction false} SplitAfterPiece(p: seq<u16>, rest: seq<u16>, d: u16)
    requires d !in p
    ensures Split(p + [d] + rest, d) == [p] + Split(rest, d)
    decreases |p|
  {
    if p == [] {
      assert ([d] + rest)[1..] == rest;
    } else {
      SplitAfterPiece(p[1..], rest, d);
      assert (p + [d] + rest)[1..] == p[1..] + [d] + rest;
      assert [p[0]] + p[1..] == p;
    }
  }

  /** Splitting a text that holds no delimiter. */
  lemma {:induction false} SplitWithoutDelimiter(p: seq<u16>, d: u16)
    requires d !in p
    ensures Split(p, d) == [p]
    decreases |p|
  {
    if p != [] {
      SplitWithoutDelimiter(p[1..], d);
      assert [p[0]] + p[1..] == p;
    }
  }

  /** Splitting the join of delimiter-free pieces gives the pieces back. */
  lemma {:induction false} JoinSplit(ps: seq<seq<u16>>, d: u16)
    requires |ps| >= 1
    requires forall k :: 0 <= k < |ps| ==> d !in ps[k]
    ensures Split(Join(ps, d), d) == ps
    decreases |ps|
  {
    if |ps| == 1 {
      SplitWithoutDelimiter(ps[0], d);
    } else {
      JoinSplit(ps[1..], d);
      SplitAfterPiece(ps[0], Join(ps[1..], d), d);
      assert ps == [ps[0]] + ps[1..];
    }
  }

  /** The first `m` pieces, joined, are a prefix of the whole join, and when
      pieces remain a delimiter follows them. */
  lemma {:induction false} JoinPrefix(ps: seq<seq<u16>>, d: u16, m: nat)
    requires m <= |ps|
    ensures Join(ps[..m], d) <= Join(ps, d)
    ensures 1 <= m < |ps| ==> |Join(ps[..m], d)| < |Join(ps, d)| && Join(ps, d)[|Join(ps[..m], d)|] == d
    decreases m
  {
    if m == 0 {
    } else if m == |ps| {
      assert ps[..m] == ps;
    } else if m == 1 {
      assert ps[..1] == [ps[0]];
    } else {
      JoinPrefix(ps[1..], d, m - 1);
      assert ps[..m][1..] == ps[1..][..m - 1];
    }
  }

  /** The first `c` pieces of `s`, joined again. */
  function PiecePrefix(s: seq<u16>, d: u16, c: nat): (r: seq<u16>)
    requires c <= |Split(s, d)|
    ensures r <= s
    ensures 1 <= c < |Split(s, d)| ==> |r| < |s| && s[|r|] == d
  {
    JoinPrefix(Split(s, d), d, c);
    SplitJoin(s, d);
    Join(Split(s, d)[..c], d)
  }

  /** The text `wrap_text_by` measures on its `i`-th try
      (`split(..).rev().skip(i).rev()` joined): all pieces but the last `i`. */
  function Candidate(s: seq<u16>, d: u16, i: nat): (r: seq<u16>)
  {
    var k := |Split(s, d)|;
    PiecePrefix(s, d, if i < k then k - i else 0)
  }

  /** The first try is the whole text, every try past the number of pieces is
      empty, and a try in between stops just before a delimiter. */
  lemma CandidateShape(s: seq<u16>, d: u16, i: nat)
    ensures Candidate(s, d, i) <= s
    ensures i == 0 ==> Candidate(s, d, i) == s
    ensures i >= |Split(s, d)| ==> Candidate(s, d, i) == []
    ensures 0 < i < |Split(s, d)| ==> |Candidate(s, d, i)| < |s| && s[|Candidate(s, d, i)|] == d
  {
    var k := |Split(s, d)|;
    SplitJoin(s, d);
    assert Split(s, d)[..k] == Split(s, d);
    assert Split(s, d)[..0] == [];
  }

  /** `width_bound == -1 || size.cx <= width_bound`. */
  predicate Fits(size: Size, widthBound: int)
  {
    widthBound == UNBOUNDED || size.cx <= widthBound
  }

  /** Some try fits; beyond the number of pieces every try is the empty text. */
  predicate HasFit(measure: Measure, widthBound: int, s: seq<u16>, d: u16)
  {
    exists i :: 0 <= i <= |Split(s, d)| && Fits(measure(Candidate(s, d, i)), widthBound)
  }

  /** The first try, from `from` on, whose text fits. */
  function FirstFit(measure: Measure, widthBound: int, s: seq<u16>, d: u16, from: nat): (i: nat)
    requires exists j :: from <= j <= |Split(s, d)| && Fits(measure(Candidate(s, d, j)), widthBound)
    ensures from <= i <= |Split(s, d)|
    ensures Fits(measure(Candidate(s, d, i)), widthBound)
    ensures forall j :: from <= j < i ==> !Fits(measure(Candidate(s, d, j)), widthBound)
    decreases |Split(s, d)| - from
  {
    if Fits(measure(Candidate(s, d, from)), widthBound) then from
    else FirstFit(measure, widthBound, s, d, from + 1)
  }

  /** The row `wrap_text_by` drains off `s`. */
  function NextRow(measure: Measure, widthBound: int, s: seq<u16>, d: u16): (r: seq<u16>)
    requires HasFit(measure, widthBound, s, d)
    ensures r <= s
  {
    Candidate(s, d, FirstFit(measure, widthBound, s, d, 0))
  }

  /** The inputs on which `wrap_text_by` ends: every inner search finds a
      fitting try, and every drained row is non-empty unless it is the whole
      remaining text. Where a row comes out empty with text left, nothing is
      drained and the outer loop repeats on the same text forever. */
  predicate WrapTerminates(measure: Measure, widthBound: int, s: seq<u16>, d: u16)
    decreases |s|
  {
    && HasFit(measure, widthBound, s, d)
    && var row := NextRow(measure, widthBound, s, d);
       (row == s || (|row| > 0 && WrapTerminates(measure, widthBound, s[|row|..], d)))
  }

  /** The rows of `wrap_text_by`, as a function. */
  function WrapRows(measure: Measure, widthBound: int, s: seq<u16>, d: u16): (rows: seq<Row>)
    requires WrapTerminates(measure, widthBound, s, d)
    ensures |rows| >= 1
    decreases |s|
  {
    var text := NextRow(measure, widthBound, s, d);
    var row := Row(text, measure(text));
    if text == s then [row] else [row] + WrapRows(measure, widthBound, s[|text|..], d)
  }

  /** One turn of the outer loop: the row drained first, then the rows of
      what is left, if anything is. */
  lemma WrapRowsStep(measure: Measure, widthBound: int, s: seq<u16>, d: u16)
    requires WrapTerminates(measure, widthBound, s, d)
    ensures var t := NextRow(measure, widthBound, s, d);
            && s[..|t|] == t
            && (t == s ==> WrapRows(measure, widthBound, s, d) == [Row(t, measure(t))])
            && (t != s ==>
                  && |t| > 0
                  && WrapTerminates(measure, widthBound, s[|t|..], d)
                  && WrapRows(measure, widthBound, s, d)
                     == [Row(t, measure(t))] + WrapRows(measure, widthBound, s[|t|..], d))
  {
  }

  /** The first fitting try is the one `FirstFit` names. */
  lemma FirstFitIsFirst(measure: Measure, widthBound: int, s: seq<u16>, d: u16, i: nat)
    requires i <= |Split(s, d)| && Fits(measure(Candidate(s, d, i)), widthBound)
    requires forall j :: 0 <= j < i ==> !Fits(measure(Candidate(s, d, j)), widthBound)
    ensures HasFit(measure, widthBound, s, d)
    ensures Candidate(s, d, i) == NextRow(measure, widthBound, s, d)
  {
    assert HasFit(measure, widthBound, s, d);
    var f := FirstFit(measure, widthBound, s, d, 0);
    assert f == i;
  }

  /** The inner `for i in 0..` of `wrap_text_by`: drop trailing pieces of the
      working text, one more per try, until what is left fits. */
  method FittingRow(measure: Measure, widthBound: int, workingText: seq<u16>, delim: u16)
    returns (newText: seq<u16>, newSize: Size)
    requires HasFit(measure, widthBound, workingText, delim)
    ensures newText == NextRow(measure, widthBound, workingText, delim)
    ensures newSize == measure(newText)
  {
    ghost var pieces := |Split(workingText, delim)|;
    var i := 0;
    newText := Candidate(workingText, delim, i);
    newSize := measure(newText);
    while !Fits(newSize, widthBound)
      invariant i <= pieces
      invariant newText == Candidate(workingText, delim, i) && newSize == measure(newText)
      invariant forall j :: 0 <= j < i ==> !Fits(measure(Candidate(workingText, delim, j)), widthBound)
      invariant exists j :: i <= j <= pieces && Fits(measure(Candidate(workingText, delim, j)), widthBound)
      decreases pieces - i
    {
      i := i + 1;
      newText := Candidate(workingText, delim, i);
      newSize := measure(newText);
    }
    FirstFitIsFirst(measure, widthBound, workingText, delim, i);
  }

  /** `wrap_text_by`: the outer `loop` drains one row per turn off the
      working text. */
  method WrapTextBy(measure: Measure, widthBound: int, text: seq<u16>, delim: u16) returns (rows: seq<Row>)
    requires WrapTerminates(measure, widthBound, text, delim)
    ensures rows == WrapRows(measure, widthBound, text, delim)
  {
    rows := [];
    var workingText := text;
    while true
      invariant WrapTerminates(measure, widthBound, workingText, delim)
      invariant rows + WrapRows(measure, widthBound, workingText, delim) == WrapRows(measure, widthBound, text, delim)
      decreases |workingText|
    {
      var newText, newSize := FittingRow(measure, widthBound, workingText, delim);
      WrapRowsStep(measure, widthBound, workingText, delim);
      ghost var before := workingText;
      var drained := workingText[..|newText|];
      rows := rows + [Row(drained, newSize)];
      workingText := workingText[|newText|..];
      if workingText == [] {
        assert newText == before;
        break;
      }
    }
  }

  /** The texts of the rows, one after another. */
  function Texts(rows: seq<Row>): (text: seq<u16>)
    decreases |rows|
  {
    if rows == [] then [] else rows[0].text + Texts(rows[1..])
  }

  lemma {:induction false} TextsAppend(a: seq<Row>, b: seq<Row>)
    ensures Texts(a + b) == Texts(a) + Texts(b)
    decreases |a|
  {
    if a == [] {
      assert a + b == b;
    } else {
      TextsAppend(a[1..], b);
      assert (a + b)[0] == a[0];
      assert (a + b)[1..] == a[1..] + b;
    }
  }

  /** The rows spell out the text exactly: nothing is lost or repeated. */
  lemma {:induction false} WrapRowsConcat(measure: Measure, widthBound: int, s: seq<u16>, d: u16)
    requires WrapTerminates(measure, widthBound, s, d)
    ensures Texts(WrapRows(measure, widthBound, s, d)) == s
    decreases |s|
  {
    var rows := WrapRows(measure, widthBound, s, d);
    var text := NextRow(measure, widthBound, s, d);
    if text == s {
      assert rows == [Row(s, measure(s))];
    } else {
      WrapRowsConcat(measure, widthBound, s[|text|..], d);
      assert rows[1..] == WrapRows(measure, widthBound, s[|text|..], d);
      assert s == text + s[|text|..];
    }
  }

  /** Each row's size is the measure of its text. */
  predicate RowsMeasured(measure: Measure, rows: seq<Row>)
  {
    forall j :: 0 <= j < |rows| ==> rows[j].size == measure(rows[j].text)
  }

  /** Each row's size fits the width bound. */
  predicate RowsFit(rows: seq<Row>, widthBound: int)
  {
    forall j :: 0 <= j < |rows| ==> Fits(rows[j].size, widthBound)
  }

  /** Every row carries its own measured size, and that size fits the bound. */
  lemma {:induction false} WrapRowsFit(measure: Measure, widthBound: int, s: seq<u16>, d: u16)
    requires WrapTerminates(measure, widthBound, s, d)
    ensures RowsMeasured(measure, WrapRows(measure, widthBound, s, d))
    ensures RowsFit(WrapRows(measure, widthBound, s, d), widthBound)
    decreases |s|
  {
    var rows := WrapRows(measure, widthBound, s, d);
    var text := NextRow(measure, widthBound, s, d);
    if text != s {
      WrapRowsFit(measure, widthBound, s[|text|..], d);
      assert rows[1..] == WrapRows(measure, widthBound, s[|text|..], d);
      var tail := rows[1..];
      forall j | 1 <= j < |rows|
        ensures rows[j].size == measure(rows[j].text) && Fits(rows[j].size, widthBound)
      {
        assert rows[j] == tail[j - 1];
      }
    }
  }

  /** `text` is the longest run of whole leading pieces of `s` that fits:
      the join of the first `c` pieces for the largest such `c`. */
  ghost predicate LongestFittingPrefix(measure: Measure, widthBound: int, s: seq<u16>, d: u16, text: seq<u16>)
  {
    exists c :: 0 <= c <= |Split(s, d)| && text == PiecePrefix(s, d, c)
      && Fits(measure(text), widthBound)
      && forall c' :: c < c' <= |Split(s, d)| ==> !Fits(measure(PiecePrefix(s, d, c')), widthBound)
  }

  /** Row `j` is the longest fitting run of pieces of what the rows before it
      left of `s`. */
  ghost predicate RowsGreedy(measure: Measure, widthBound: int, s: seq<u16>, d: u16, rows: seq<Row>)
  {
    forall j :: 0 <= j < |rows| ==>
      && Texts(rows[..j]) <= s
      && LongestFittingPrefix(measure, widthBound, s[|Texts(rows[..j])|..], d, rows[j].text)
  }

  /** The greedy choice: the row drained off a text is its longest fitting
      run of pieces, because the tries drop trailing pieces one at a time. */
  lemma NextRowIsLongest(measure: Measure, widthBound: int, s: seq<u16>, d: u16)
    requires HasFit(measure, widthBound, s, d)
    ensures LongestFittingPrefix(measure, widthBound, s, d, NextRow(measure, widthBound, s, d))
  {
    var k := |Split(s, d)|;
    var i := FirstFit(measure, widthBound, s, d, 0);
    var c := if i < k then k - i else 0;
    forall c' | c < c' <= k
      ensures !Fits(measure(PiecePrefix(s, d, c')), widthBound)
    {
      assert Candidate(s, d, k - c') == PiecePrefix(s, d, c');
    }
  }

  /** The text of the first `j` rows of `[first] + tail`. */
  lemma TextsOfCons(first: Row, tail: seq<Row>, j: nat)
    requires 1 <= j <= |tail| + 1
    ensures Texts(([first] + tail)[..j]) == first.text + Texts(tail[..j - 1])
  {
    assert ([first] + tail)[..j] == [first] + tail[..j - 1];
    TextsAppend([first], tail[..j - 1]);
    assert Texts([first]) == first.text + Texts([]);
  }

  /** Every row is the longest fitting run of pieces of the text left when it
      was drained. */
  lemma {:induction false} WrapRowsGreedy(measure: Measure, widthBound: int, s: seq<u16>, d: u16)
    requires WrapTerminates(measure, widthBound, s, d)
    ensures RowsGreedy(measure, widthBound, s, d, WrapRows(measure, widthBound, s, d))
    decreases |s|
  {
    var text := NextRow(measure, widthBound, s, d);
    var first := Row(text, measure(text));
    NextRowIsLongest(measure, widthBound, s, d);
    if text == s {
      GreedyCons(measure, widthBound, s, d, first, [], []);
      assert [first] + [] == [first];
    } else {
      var rest := s[|text|..];
      WrapRowsGreedy(measure, widthBound, rest, d);
      GreedyCons(measure, widthBound, s, d, first, rest, WrapRows(measure, widthBound, rest, d));
    }
  }

  /** A greedy first row followed by greedy rows of what it leaves is greedy. */
  lemma GreedyCons(measure: Measure, widthBound: int, s: seq<u16>, d: u16, first: Row, rest: seq<u16>, tail: seq<Row>)
    requires s == first.text + rest
    requires LongestFittingPrefix(measure, widthBound, s, d, first.text)
    requires RowsGreedy(measure, widthBound, rest, d, tail)
    ensures RowsGreedy(measure, widthBound, s, d, [first] + tail)
  {
    var rows := [first] + tail;
    assert rows[..0] == [];
    assert s[|Texts(rows[..0])|..] == s;
    forall j | 1 <= j < |rows|
      ensures && Texts(rows[..j]) <= s
              && LongestFittingPrefix(measure, widthBound, s[|Texts(rows[..j])|..], d, rows[j].text)
    {
      TextsOfCons(first, tail, j);
      var before := Texts(tail[..j - 1]);
      assert before <= rest
        && LongestFittingPrefix(measure, widthBound, rest[|before|..], d, tail[j - 1].text);
      assert s[|Texts(rows[..j])|..] == rest[|before|..];
      assert rows[j] == tail[j - 1];
    }
  }

  /** With no width bound a text comes back whole, as a single row. */
  lemma UnboundedSingleRow(measure: Measure, s: seq<u16>, d: u16)
    ensures WrapTerminates(measure, UNBOUNDED, s, d)
    ensures WrapRows(measure, UNBOUNDED, s, d) == [Row(s, measure(s))]
  {
    SplitJoin(s, d);
    var k := |Split(s, d)|;
    assert Split(s, d)[..k] == Split(s, d);
    assert Candidate(s, d, 0) == s;
    assert FirstFit(measure, UNBOUNDED, s, d, 0) == 0;
  }

  /** Every row but the first is non-empty and begins with `d`. */
  predicate LaterRowsLead(rows: seq<Row>, d: u16)
  {
    forall j :: 1 <= j < |rows| ==> |rows[j].text| > 0 && rows[j].text[0] == d
  }

  /** After a cut, the separating delimiter starts the next row: every row but
      the first is non-empty and begins with the delimiter. */
  lemma {:induction false} LaterRowsStartWithDelimiter(measure: Measure, widthBound: int, s: seq<u16>, d: u16)
    requires WrapTerminates(measure, widthBound, s, d)
    ensures LaterRowsLead(WrapRows(measure, widthBound, s, d), d)
    decreases |s|
  {
    var rows := WrapRows(measure, widthBound, s, d);
    var text := NextRow(measure, widthBound, s, d);
    if text != s {
      var rest := s[|text|..];
      var i := FirstFit(measure, widthBound, s, d, 0);
      assert text == Candidate(s, d, i);
      CandidateShape(s, d, i);
      assert rest[0] == d;
      var tail := WrapRows(measure, widthBound, rest, d);
      LaterRowsStartWithDelimiter(measure, widthBound, rest, d);
      assert rows[1..] == tail;
      var first := NextRow(measure, widthBound, rest, d);
      assert tail[0].text == first;
      assert |first| > 0;
      assert first[0] == rest[0];
      forall j | 1 <= j < |rows|
        ensures |rows[j].text| > 0 && rows[j].text[0] == d
      {
        assert rows[j] == tail[j - 1];
        if j > 1 {
          assert |tail[j - 1].text| > 0 && tail[j - 1].text[0] == d;
        }
      }
    }
  }

  /** The termination hazard, first form: with a fixed-pitch measure, a text
      that is one word wider than the bound never finishes wrapping. No
      non-empty try fits, the empty try does, and draining nothing leaves the
      same text for the next turn. */
  lemma WideWordNeverEnds(s: seq<u16>, d: u16, widthBound: int)
    requires 0 <= widthBound < |s|
    requires d !in s
    ensures !WrapTerminates(s_ => Size(|s_|, 1), widthBound, s, d)
  {
    var measure: Measure := s_ => Size(|s_|, 1);
    SplitWithoutDelimiter(s, d);
    assert Split(s, d)[..1] == [s];
    assert Candidate(s, d, 0) == s;
    assert Candidate(s, d, 1) == [];
    assert FirstFit(measure, widthBound, s, d, 0) == 1;
  }

  /** The termination hazard, second form: after a first row is cut, the rest
      starts with the delimiter, so its first piece is empty; if the next word
      with its leading delimiter is wider than the bound, the only try that
      fits is the empty one and wrapping never ends. */
  lemma SecondWordTooWideNeverEnds(w1: seq<u16>, w2: seq<u16>, d: u16, widthBound: int)
    requires d !in w1 && d !in w2
    requires 0 < |w1| <= widthBound < |w2| + 1
    ensures !WrapTerminates(s_ => Size(|s_|, 1), widthBound, w1 + [d] + w2, d)
  {
    var measure: Measure := s_ => Size(|s_|, 1);
    var s := w1 + [d] + w2;
    SplitAfterPiece(w1, w2, d);
    SplitWithoutDelimiter(w2, d);
    assert Split(s, d) == [w1, w2];
    assert Candidate(s, d, 0) == s by {
      assert Split(s, d)[..2] == [w1, w2];
      assert Join([w1, w2], d) == w1 + [d] + Join([w2], d);
    }
    assert Candidate(s, d, 1) == w1 by {
      assert Split(s, d)[..1] == [w1];
    }
    assert FirstFit(measure, widthBound, s, d, 0) == 1;
    var rest := [d] + w2;
    assert s[|w1|..] == rest;
    SplitAfterPiece([], w2, d);
    assert [] + [d] + w2 == rest;
    assert Split(rest, d) == [[], w2];
    assert Candidate(rest, d, 0) == rest by {
      assert Split(rest, d)[..2] == [[], w2];
      assert Join([[], w2], d) == [] + [d] + Join([w2], d);
    }
    assert Candidate(rest, d, 1) == [] by {
      assert Split(rest, d)[..1] == [[]];
    }
    assert FirstFit(measure, widthBound, rest, d, 0) == 1;
  }

  /** `flat_map(|block| wrap_text_by(..))`: the rows of every block, in block order. */
  function BlockRows(measure: Measure, widthBound: int, blocks: seq<seq<u16>>): (rows: seq<Row>)
    requires forall k :: 0 <= k < |blocks| ==> WrapTerminates(measure, widthBound, blocks[k], SPACE)
    ensures |blocks| > 0 ==> |rows| > 0
    decreases |blocks|
  {
    if blocks == [] then []
    else WrapRows(measure, widthBound, blocks[0], SPACE) + BlockRows(measure, widthBound, blocks[1..])
  }

  /** Every line of the text (its blocks between newlines) finishes wrapping. */
  predicate LinesTerminate(measure: Measure, widthBound: int, text: seq<u16>)
  {
    forall k :: 0 <= k < |Split(text, NEWLINE)| ==> WrapTerminates(measure, widthBound, Split(text, NEWLINE)[k], SPACE)
  }

  /** The rows `get_text_size_wrap` collects. */
  function TextRows(measure: Measure, widthBound: int, text: seq<u16>): (rows: seq<Row>)
    requires LinesTerminate(measure, widthBound, text)
    ensures |rows| > 0
  {
    BlockRows(measure, widthBound, Split(text, NEWLINE))
  }

  /** `max()` of the row widths; defined because there is always a row. */
  function MaxWidth(rows: seq<Row>): (w: int)
    requires |rows| > 0
    ensures forall j :: 0 <= j < |rows| ==> rows[j].size.cx <= w
    ensures exists j :: 0 <= j < |rows| && rows[j].size.cx == w
    decreases |rows|
  {
    if |rows| == 1 then rows[0].size.cx
    else
      var rest := MaxWidth(rows[1..]);
      assert forall j :: 1 <= j < |rows| ==> rows[j] == rows[1..][j - 1];
      if rows[0].size.cx >= rest then rows[0].size.cx else rest
  }

  /** `sum()` of the row heights. */
  function TotalHeight(rows: seq<Row>): (h: int)
    ensures (forall j :: 0 <= j < |rows| ==> rows[j].size.cy >= 0) ==>
              0 <= h && forall j :: 0 <= j < |rows| ==> rows[j].size.cy <= h
    decreases |rows|
  {
    if rows == [] then 0
    else
      assert forall j :: 1 <= j < |rows| ==> rows[1..][j - 1] == rows[j];
      rows[0].size.cy + TotalHeight(rows[1..])
  }

  /** The height of two runs of rows is the sum of their heights. */
  lemma {:induction false} TotalHeightAppend(a: seq<Row>, b: seq<Row>)
    ensures TotalHeight(a + b) == TotalHeight(a) + TotalHeight(b)
    decreases |a|
  {
    if a != [] {
      assert (a + b)[1..] == a[1..] + b;
      TotalHeightAppend(a[1..], b);
    } else {
      assert a + b == b;
    }
  }

  /** Every row of every block fits the width bound. */
  lemma {:induction false} BlockRowsFit(measure: Measure, widthBound: int, blocks: seq<seq<u16>>)
    requires forall k :: 0 <= k < |blocks| ==> WrapTerminates(measure, widthBound, blocks[k], SPACE)
    ensures RowsFit(BlockRows(measure, widthBound, blocks), widthBound)
    decreases |blocks|
  {
    if blocks != [] {
      var first := WrapRows(measure, widthBound, blocks[0], SPACE);
      var rest := BlockRows(measure, widthBound, blocks[1..]);
      WrapRowsFit(measure, widthBound, blocks[0], SPACE);
      BlockRowsFit(measure, widthBound, blocks[1..]);
      RowsFitAppend(first, rest, widthBound);
    }
  }

  lemma RowsFitAppend(a: seq<Row>, b: seq<Row>, widthBound: int)
    requires RowsFit(a, widthBound) && RowsFit(b, widthBound)
    ensures RowsFit(a + b, widthBound)
  {
    forall j | 0 <= j < |a + b|
      ensures Fits((a + b)[j].size, widthBound)
    {
      if j >= |a| { assert (a + b)[j] == b[j - |a|]; } else { assert (a + b)[j] == a[j]; }
    }
  }

  /** The texts of all rows are the text's lines, one after another: the rows
      keep the block order and lose only the newlines. */
  lemma {:induction false} BlockRowsConcat(measure: Measure, widthBound: int, blocks: seq<seq<u16>>)
    requires forall k :: 0 <= k < |blocks| ==> WrapTerminates(measure, widthBound, blocks[k], SPACE)
    ensures Texts(BlockRows(measure, widthBound, blocks)) == Concat(blocks)
    decreases |blocks|
  {
    if blocks != [] {
      var first := WrapRows(measure, widthBound, blocks[0], SPACE);
      WrapRowsConcat(measure, widthBound, blocks[0], SPACE);
      BlockRowsConcat(measure, widthBound, blocks[1..]);
      TextsAppend(first, BlockRows(measure, widthBound, blocks[1..]));
    }
  }

  function Concat(blocks: seq<seq<u16>>): (text: seq<u16>)
    decreases |blocks|
  {
    if blocks == [] then [] else blocks[0] + Concat(blocks[1..])
  }

  /** `get_text_size_wrap`: the size needed to lay the text out wrapped within
      `bounds`, or `None` when its height exceeds `bounds.cy`. The height of
      the whole text is checked first, before anything is wrapped. */
  function GetTextSizeWrap(measure: Measure, bounds: Size, text: seq<u16>): (r: Option<Size>)
    requires (bounds.cy != UNBOUNDED && measure(text).cy > bounds.cy) || LinesTerminate(measure, bounds.cx, text)
    ensures bounds.cy != UNBOUNDED && measure(text).cy > bounds.cy ==> r.None?
    ensures !(bounds.cy != UNBOUNDED && measure(text).cy > bounds.cy) ==>
              var rows := TextRows(measure, bounds.cx, text);
              && (r.None? <==> bounds.cy != UNBOUNDED && TotalHeight(rows) > bounds.cy)
              && (r.Some? ==> r.value.cy == TotalHeight(rows))
              && (r.Some? ==> (forall j :: 0 <= j < |rows| ==> rows[j].size.cx <= r.value.cx)
                              && exists j :: 0 <= j < |rows| && rows[j].size.cx == r.value.cx)
    ensures r.Some? && bounds.cx != UNBOUNDED ==> r.value.cx <= bounds.cx
    ensures r.Some? && bounds.cy != UNBOUNDED ==> r.value.cy <= bounds.cy
  {
    if bounds.cy != UNBOUNDED && measure(text).cy > bounds.cy then None
    else
      var rows := TextRows(measure, bounds.cx, text);
      BlockRowsFit(measure, bounds.cx, Split(text, NEWLINE));
      assert forall j :: 0 <= j < |rows| ==> Fits(rows[j].size, bounds.cx);
      var size := Size(MaxWidth(rows), TotalHeight(rows));
      if bounds.cy != UNBOUNDED && size.cy > bounds.cy then None else Some(size)
  }
}
