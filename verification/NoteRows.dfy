// The rows a document takes on the screen (notatnik.cpp:1052-1203): where a line is wrapped, and which row
// holds the cursor. The advance of a glyph is any function of its bytes.
module NoteRows {
  import opened NoteText

  type Glyph = Line -> nat

  /** `WierszEkranowy`. */
  datatype Row = Row(line: nat, start: nat, end: nat)

  // ----- one row

  /** `szerokosc_fragmentu`: the width of the characters from `p` as far as `q`. */
  function Pixels(line: Line, p: nat, q: nat, glyph: Glyph): nat
    requires p <= |line|
    decreases |line| - p
  {
    if p == |line| || Behind(line, p) > q then 0
    else glyph(line[p..Behind(line, p)]) + Pixels(line, Behind(line, p), q, glyph)
  }

  /** `q` lies some whole characters behind `p`. */
  predicate Steps(line: Line, p: nat, q: nat)
    requires p <= |line|
    decreases |line| - p
  {
    p == q || (p < |line| && p < q && Steps(line, Behind(line, p), q))
  }

  /** Where the row begun at `start` ends, when it surely reaches `q`: before the first character that makes it
      too wide. */
  function Grown(line: Line, start: nat, q: nat, width: nat, glyph: Glyph): (end: nat)
    requires start < q <= |line| && Steps(line, start, q)
    ensures q <= end <= |line|
    decreases |line| - q
  {
    if q == |line| then q
    else
      StepMore(line, start, q);
      if Pixels(line, start, Behind(line, q), glyph) > width then q
      else Grown(line, start, Behind(line, q), width, glyph)
  }

  /** `koniec_wiersza_ekranowego`. */
  function RowEnd(line: Line, start: nat, width: nat, glyph: Glyph): (end: nat)
    requires start < |line|
    ensures start < end <= |line|
  {
    Grown(line, start, Behind(line, start), width, glyph)
  }

  /** An end the layout may choose: whole characters, not too wide unless it is a single one, and no room for
      one more. */
  ghost predicate GoodEnd(line: Line, start: nat, end: nat, width: nat, glyph: Glyph)
    requires start < |line|
  {
    && start < end <= |line| && Steps(line, start, end)
    && (end == Behind(line, start) || Pixels(line, start, end, glyph) <= width)
    && (end == |line| || Pixels(line, start, Behind(line, end), glyph) > width)
  }

  lemma {:induction false} StepMore(line: Line, p: nat, q: nat)
    requires p <= q < |line| && Steps(line, p, q)
    ensures Steps(line, p, Behind(line, q))
    decreases |line| - p
  {
    if p < q { StepMore(line, Behind(line, p), q); }
  }

  lemma {:induction false} StepBoundary(line: Line, p: nat, q: nat)
    requires p < q && p <= |line| && Steps(line, p, q)
    ensures q <= |line| && Boundary(line, q) && Behind(line, p) <= q
    decreases |line| - p
  {
    if Behind(line, p) < q { StepBoundary(line, Behind(line, p), q); }
  }

  /** Two places whole characters behind `p`, the nearer one first. */
  lemma {:induction false} StepBetween(line: Line, p: nat, q: nat, t: nat)
    requires p <= q < t && p <= |line| && Steps(line, p, q) && Steps(line, p, t)
    ensures q < |line| && Behind(line, q) <= t && Steps(line, q, t)
    decreases |line| - p
  {
    if p < q {
      StepBoundary(line, p, q);
      StepBetween(line, Behind(line, p), q, t);
    } else {
      StepBoundary(line, p, t);
    }
  }

  lemma {:induction false} WiderFarther(line: Line, p: nat, q: nat, t: nat, glyph: Glyph)
    requires p <= |line| && q <= t
    ensures Pixels(line, p, q, glyph) <= Pixels(line, p, t, glyph)
    decreases |line| - p
  {
    if p < |line| && Behind(line, p) <= q { WiderFarther(line, Behind(line, p), q, t, glyph); }
  }

  /** One character more adds its own advance. */
  lemma {:induction false} PixelsMore(line: Line, p: nat, q: nat, glyph: Glyph)
    requires p <= q < |line| && Steps(line, p, q)
    ensures Pixels(line, p, Behind(line, q), glyph) == Pixels(line, p, q, glyph) + glyph(line[q..Behind(line, q)])
    decreases |line| - p
  {
    if p < q {
      StepBoundary(line, p, q);
      PixelsMore(line, Behind(line, p), q, glyph);
    } else if Behind(line, p) < |line| {
      assert Pixels(line, Behind(line, p), Behind(line, p), glyph) == 0;
    }
  }

  lemma {:induction false} GrownGood(line: Line, start: nat, q: nat, width: nat, glyph: Glyph)
    requires start < q <= |line| && Steps(line, start, q)
    requires q == Behind(line, start) || Pixels(line, start, q, glyph) <= width
    ensures GoodEnd(line, start, Grown(line, start, q, width, glyph), width, glyph)
    decreases |line| - q
  {
    if q < |line| {
      StepMore(line, start, q);
      if Pixels(line, start, Behind(line, q), glyph) <= width {
        GrownGood(line, start, Behind(line, q), width, glyph);
      }
    }
  }

  /** The end the code finds is the only one that is whole, fits and leaves no room. */
  lemma RowEndOnly(line: Line, start: nat, end: nat, width: nat, glyph: Glyph)
    requires start < |line|
    ensures GoodEnd(line, start, end, width, glyph) <==> end == RowEnd(line, start, width, glyph)
  {
    var e := RowEnd(line, start, width, glyph);
    GrownGood(line, start, Behind(line, start), width, glyph);
    if GoodEnd(line, start, end, width, glyph) {
      if end < e { NoSecondEnd(line, start, end, e, width, glyph); }
      if e < end { NoSecondEnd(line, start, e, end, width, glyph); }
    }
  }

  lemma NoSecondEnd(line: Line, start: nat, e: nat, f: nat, width: nat, glyph: Glyph)
    requires start < |line| && e < f && GoodEnd(line, start, e, width, glyph)
    ensures !GoodEnd(line, start, f, width, glyph)
  {
    if GoodEnd(line, start, f, width, glyph) {
      StepBetween(line, start, e, f);
      StepBoundary(line, start, e);
      WiderFarther(line, start, Behind(line, e), f, glyph);
    }
  }

  // ----- all rows

  function RowsFrom(line: Line, r: nat, p: nat, width: nat, glyph: Glyph): seq<Row>
    requires p <= |line|
    decreases |line| - p
  {
    if p == |line| then []
    else
      var end := RowEnd(line, p, width, glyph);
      [Row(r, p, end)] + RowsFrom(line, r, end, width, glyph)
  }

  /** The rows of line `r`; an empty line takes one. */
  function RowsOf(line: Line, r: nat, width: nat, glyph: Glyph): seq<Row> {
    if line == [] then [Row(r, 0, 0)] else RowsFrom(line, r, 0, width, glyph)
  }

  /** The rows of line `r` and the lines under it. */
  function Rows(text: seq<Line>, r: nat, width: nat, glyph: Glyph): seq<Row>
    requires r <= |text|
    decreases |text| - r
  {
    if r == |text| then [] else RowsOf(text[r], r, width, glyph) + Rows(text, r + 1, width, glyph)
  }

  /** A row stands in a line: whole characters, at least one unless the line is empty. */
  ghost predicate RowFits(text: seq<Line>, w: Row, width: nat, glyph: Glyph) {
    && w.line < |text|
    && if text[w.line] == [] then w.start == w.end == 0
       else
         && w.start < |text[w.line]| && Boundary(text[w.line], w.start)
         && GoodEnd(text[w.line], w.start, w.end, width, glyph)
  }

  /** Row `b` comes right under row `a`. */
  ghost predicate Under(text: seq<Line>, a: Row, b: Row) {
    a.line < |text| && if a.end < |text[a.line]| then b.line == a.line && b.start == a.end
                       else b.line == a.line + 1 && b.start == 0
  }

  ghost predicate Chained(text: seq<Line>, rows: seq<Row>) {
    forall i | 0 <= i < |rows| - 1 :: Under(text, rows[i], rows[i + 1])
  }

  lemma ChainJoin(text: seq<Line>, a: seq<Row>, b: seq<Row>)
    requires Chained(text, a) && Chained(text, b)
    requires a != [] && b != [] ==> Under(text, a[|a|-1], b[0])
    ensures Chained(text, a + b)
  {
    hide Under;
    forall i | 0 <= i < |a + b| - 1 ensures Under(text, (a + b)[i], (a + b)[i + 1]) {
      if i < |a| - 1 {
        assert (a + b)[i] == a[i] && (a + b)[i + 1] == a[i + 1];
      } else if i >= |a| {
        assert (a + b)[i] == b[i - |a|] && (a + b)[i + 1] == b[i - |a| + 1];
      }
    }
  }

  lemma {:induction false} LineRows(text: seq<Line>, r: nat, p: nat, width: nat, glyph: Glyph)
    requires r < |text| && p < |text[r]| && Boundary(text[r], p)
    ensures var rows := RowsFrom(text[r], r, p, width, glyph);
            && rows != [] && rows[0].line == r && rows[0].start == p
            && rows[|rows|-1].line == r && rows[|rows|-1].end == |text[r]|
            && Chained(text, rows) && forall i | 0 <= i < |rows| :: RowFits(text, rows[i], width, glyph)
    decreases |text[r]| - p
  {
    var line := text[r];
    var end := RowEnd(line, p, width, glyph);
    RowEndOnly(line, p, end, width, glyph);
    StepBoundary(line, p, end);
    hide RowEnd, Boundary, Steps, Pixels;
    var first := [Row(r, p, end)];
    if end < |line| {
      LineRows(text, r, end, width, glyph);
      ChainJoin(text, first, RowsFrom(line, r, end, width, glyph));
    } else {
      assert RowsFrom(line, r, p, width, glyph) == first;
    }
  }

  lemma RowsOfLine(text: seq<Line>, r: nat, width: nat, glyph: Glyph)
    requires r < |text|
    ensures var rows := RowsOf(text[r], r, width, glyph);
            && rows != [] && rows[0].line == r && rows[0].start == 0
            && rows[|rows|-1].line == r && rows[|rows|-1].end == |text[r]|
            && Chained(text, rows) && forall i | 0 <= i < |rows| :: RowFits(text, rows[i], width, glyph)
  {
    hide RowsFrom, GoodEnd;
    if text[r] != [] { LineRows(text, r, 0, width, glyph); }
  }

  /** The rows cut the document up: they start at its beginning, end at its end, and each comes right under the
      one before, whole characters only and at least one in every row of a line that has any. */
  lemma {:induction false} RowsPartition(text: seq<Line>, r: nat, width: nat, glyph: Glyph)
    requires r < |text|
    ensures var rows := Rows(text, r, width, glyph);
            && rows != [] && rows[0].line == r && rows[0].start == 0
            && rows[|rows|-1].line == |text| - 1 && rows[|rows|-1].end == |text[|text|-1]|
            && Chained(text, rows) && forall i | 0 <= i < |rows| :: RowFits(text, rows[i], width, glyph)
    decreases |text| - r
  {
    hide RowsOf, RowFits, Chained;
    RowsOfLine(text, r, width, glyph);
    var a := RowsOf(text[r], r, width, glyph);
    if r + 1 < |text| {
      RowsPartition(text, r + 1, width, glyph);
      ChainJoin(text, a, Rows(text, r + 1, width, glyph));
    } else {
      assert Rows(text, r, width, glyph) == a;
    }
  }

  /** Higher up: an earlier line, or an earlier part of the same line. */
  predicate Above(a: Row, b: Row) {
    a.line < b.line || (a.line == b.line && a.end <= b.start && a.start < b.start)
  }

  lemma {:induction false} RowsOrdered(text: seq<Line>, rows: seq<Row>, i: nat, j: nat, width: nat, glyph: Glyph)
    requires Chained(text, rows) && i < j < |rows|
    requires forall k | 0 <= k < |rows| :: RowFits(text, rows[k], width, glyph)
    ensures Above(rows[i], rows[j])
    decreases j
  {
    hide Steps, Pixels, Boundary;
    assert RowFits(text, rows[j-1], width, glyph) && Under(text, rows[j-1], rows[j]);
    assert RowFits(text, rows[i], width, glyph);
    if i < j - 1 { RowsOrdered(text, rows, i, j - 1, width, glyph); }
  }

  /** The row the cursor is drawn in: at a wrap it is the lower one. */
  predicate Holds(text: seq<Line>, w: Row, r: nat, col: nat) {
    w.line == r < |text| && w.start <= col && (col < w.end || w.end == |text[r]|)
  }

  /** No place of the document is drawn in two rows. */
  lemma OneRowHolds(text: seq<Line>, i: nat, j: nat, r: nat, col: nat, width: nat, glyph: Glyph)
    requires var rows := Rows(text, 0, width, glyph);
             i < |rows| && j < |rows| && Holds(text, rows[i], r, col) && Holds(text, rows[j], r, col)
    requires r < |text| && col <= |text[r]|
    ensures i == j
  {
    var rows := Rows(text, 0, width, glyph);
    RowsPartition(text, 0, width, glyph);
    hide Rows, GoodEnd, Boundary;
    if i < j { HoldsAbove(text, rows, i, j, r, col, width, glyph); }
    if j < i { HoldsAbove(text, rows, j, i, r, col, width, glyph); }
  }

  lemma HoldsAbove(text: seq<Line>, rows: seq<Row>, i: nat, j: nat, r: nat, col: nat, width: nat, glyph: Glyph)
    requires Chained(text, rows) && i < j < |rows|
    requires forall k | 0 <= k < |rows| :: RowFits(text, rows[k], width, glyph)
    requires r < |text| && col <= |text[r]| && Holds(text, rows[i], r, col)
    ensures !Holds(text, rows[j], r, col)
  {
    hide Chained, Steps, Pixels, Boundary;
    RowsOrdered(text, rows, i, j, width, glyph);
    assert RowFits(text, rows[j], width, glyph);
  }

  /** ... and every place is drawn in some row. */
  lemma SomeRowHolds(text: seq<Line>, r: nat, col: nat, width: nat, glyph: Glyph) returns (i: nat)
    requires r < |text| && col <= |text[r]|
    ensures var rows := Rows(text, 0, width, glyph);
            i < |rows| && Holds(text, rows[i], r, col)
  {
    i := HolderFrom(text, 0, r, col, width, glyph);
  }

  lemma HolderFrom(text: seq<Line>, s: nat, r: nat, col: nat, width: nat, glyph: Glyph) returns (i: nat)
    requires s <= r < |text| && col <= |text[r]|
    ensures var rows := Rows(text, s, width, glyph);
            i < |rows| && Holds(text, rows[i], r, col)
    decreases r - s
  {
    hide Holds, RowsFrom;
    var a := RowsOf(text[s], s, width, glyph);
    if s < r {
      var k := HolderFrom(text, s + 1, r, col, width, glyph);
      i := |a| + k;
    } else if text[r] == [] {
      EmptyHolds(text, r, col);
      i := 0;
    } else {
      i := HolderInLine(text, r, 0, col, width, glyph);
    }
  }

  lemma EmptyHolds(text: seq<Line>, r: nat, col: nat)
    requires r < |text| && col <= |text[r]| && text[r] == []
    ensures Holds(text, Row(r, 0, 0), r, col)
  {
  }

  lemma HolderInLine(text: seq<Line>, r: nat, p: nat, col: nat, width: nat, glyph: Glyph) returns (i: nat)
    requires r < |text| && p < |text[r]| && p <= col <= |text[r]|
    ensures var rows := RowsFrom(text[r], r, p, width, glyph);
            i < |rows| && Holds(text, rows[i], r, col)
    decreases |text[r]| - p
  {
    hide RowEnd;
    var end := RowEnd(text[r], p, width, glyph);
    if col < end || end == |text[r]| {
      i := 0;
    } else {
      var k := HolderInLine(text, r, end, col, width, glyph);
      i := k + 1;
    }
  }
}
