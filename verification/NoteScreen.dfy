// Walks over the soft-wrapped rows, scrolling and the up and down keys (notatnik.cpp:891-951, 1052-1203, 1312-1366).
// Every walk starts from the flat buffer again; all of them see the same list of rows.
module NoteScreen {
  import N = Notepad
  import opened NoteRows
  import opened NoteText

  function Wide(width: int): nat {
    if width < 1 then 1 else width
  }

  function Max(a: int, b: int): int {
    if a > b then a else b
  }

  function Distance(a: int, b: int): nat {
    if a < b then b - a else a - b
  }

  /** `utf8_nastepny_start`. */
  method NextStart(line: Line, p: nat) returns (q: nat)
    requires p < |line|
    ensures q == Behind(line, p)
  {
    q := p + 1;
    while q < |line| && Continues(line[q])
      invariant p < q <= |line| && Behind(line, p) == Behind(line, q - 1)
    {
      q := q + 1;
    }
  }

  /** `koniec_wiersza_ekranowego` (notatnik.cpp:1052-1073). */
  method WrapAt(line: Line, start: nat, width: int, glyph: Glyph) returns (p: nat)
    requires start <= |line|
    ensures p == if start < |line| then RowEnd(line, start, Wide(width), glyph) else |line|
  {
    if start >= |line| { return |line|; }
    var room := Wide(width);
    p := start;
    var pixels: int := 0;
    while p < |line|
      invariant start <= p <= |line| && Steps(line, start, p)
      invariant pixels == Pixels(line, start, p, glyph)
      invariant p > start ==> RowEnd(line, start, room, glyph) == Grown(line, start, p, room, glyph)
    {
      var next := NextStart(line, p);
      var advance := glyph(line[p..next]);
      PixelsMore(line, start, p, glyph);
      StepMore(line, start, p);
      if p > start && advance > room - pixels { return; }
      pixels := pixels + advance;
      p := next;
    }
  }

  /** `szerokosc_fragmentu`. */
  method Measure(line: Line, start: nat, end: nat, glyph: Glyph) returns (pixels: nat)
    requires start <= end <= |line|
    ensures pixels == Pixels(line, start, end, glyph)
  {
    pixels := 0;
    var p := start;
    while p < end
      invariant start <= p <= |line|
      invariant pixels + Pixels(line, p, end, glyph) == Pixels(line, start, end, glyph)
      decreases |line| - p
    {
      var next := NextStart(line, p);
      if next > end { return; }
      pixels := pixels + glyph(line[p..next]);
      p := next;
    }
  }

  /** A place in a row that is as near to `x` as any, to a pixel. */
  ghost predicate Nearest(line: Line, start: nat, end: nat, q: nat, x: int, glyph: Glyph)
    requires start <= end <= |line|
  {
    && start <= q <= end && Steps(line, start, q)
    && forall t | start <= t <= end && Steps(line, start, t) ::
         Distance(x, Pixels(line, start, q, glyph)) <= Distance(x, Pixels(line, start, t, glyph)) + 1
  }

  /** Neither the places up to `q` nor those from `next` on are nearer than the better of the two. */
  lemma NearestOfTwo(line: Line, start: nat, end: nat, q: nat, best: nat, x: int, glyph: Glyph)
    requires start <= q < end <= |line| && Steps(line, start, q) && Steps(line, start, end)
    requires Pixels(line, start, q, glyph) <= x <= Pixels(line, start, q, glyph) + glyph(line[q..Behind(line, q)])
    requires var a, d := glyph(line[q..Behind(line, q)]), x - Pixels(line, start, q, glyph);
             (best == q && d <= a - d) || (best == Behind(line, q) && a - d <= d + 1)
    ensures Nearest(line, start, end, best, x, glyph)
  {
    StepBetween(line, start, q, end);
    StepMore(line, start, q);
    PixelsMore(line, start, q, glyph);
    forall t | start <= t <= end && Steps(line, start, t)
      ensures Distance(x, Pixels(line, start, best, glyph)) <= Distance(x, Pixels(line, start, t, glyph)) + 1
    {
      if t <= q {
        WiderFarther(line, start, t, q, glyph);
      } else {
        StepBetween(line, start, q, t);
        WiderFarther(line, start, Behind(line, q), t, glyph);
      }
    }
  }

  lemma NearestEdge(line: Line, start: nat, end: nat, q: nat, x: int, glyph: Glyph)
    requires start <= q <= end <= |line| && Steps(line, start, q)
    requires (q == start && x <= 0) || (q == end && Pixels(line, start, end, glyph) <= x)
    ensures Nearest(line, start, end, q, x, glyph)
  {
    forall t | start <= t <= end && Steps(line, start, t)
      ensures Distance(x, Pixels(line, start, q, glyph)) <= Distance(x, Pixels(line, start, t, glyph)) + 1
    {
      if q == start {
        WiderFarther(line, start, q, t, glyph);
        StartPixels(line, start, glyph);
      } else {
        WiderFarther(line, start, t, q, glyph);
      }
    }
  }

  lemma StartPixels(line: Line, p: nat, glyph: Glyph)
    requires p <= |line|
    ensures Pixels(line, p, p, glyph) == 0
  {
  }

  /** The middle of the character at `p`, counted from `start`. */
  function Middle(line: Line, start: nat, p: nat, glyph: Glyph): nat
    requires start <= p < |line|
  {
    Pixels(line, start, p, glyph) + glyph(line[p..Behind(line, p)]) / 2
  }

  /** The place chosen for `x`: behind every character whose middle does not lie right of `x`, and before the next. */
  ghost predicate Chosen(line: Line, start: nat, end: nat, q: nat, x: int, glyph: Glyph)
    requires start <= end <= |line|
  {
    && start <= q <= end && Steps(line, start, q)
    && (q > start ==> x > 0)
    && (forall p | start <= p < q && Steps(line, start, p) :: Middle(line, start, p, glyph) <= x)
    && (q < end && x > 0 ==> x < Middle(line, start, q, glyph))
  }

  /** The middles stand in the order of the characters. */
  lemma MiddleBefore(line: Line, start: nat, p: nat, q: nat, glyph: Glyph)
    requires start <= p < q < |line| && Steps(line, start, p) && Steps(line, start, q)
    ensures Middle(line, start, p, glyph) <= Pixels(line, start, q, glyph) <= Middle(line, start, q, glyph)
  {
    StepBetween(line, start, p, q);
    StepMore(line, start, p);
    PixelsMore(line, start, p, glyph);
    WiderFarther(line, start, Behind(line, p), q, glyph);
  }

  /** No other place fits that description. */
  lemma ChosenOnce(line: Line, start: nat, end: nat, q: nat, r: nat, x: int, glyph: Glyph)
    requires start <= end <= |line| && Chosen(line, start, end, q, x, glyph) && Chosen(line, start, end, r, x, glyph)
    ensures q == r
  {
  }

  /** `bajt_dla_piksela` (notatnik.cpp:1312-1331). */
  method PlaceAt(line: Line, start: nat, end: nat, x: int, glyph: Glyph) returns (q: nat)
    requires start <= end <= |line| && Steps(line, start, end)
    ensures Chosen(line, start, end, q, x, glyph) && Nearest(line, start, end, q, x, glyph)
  {
    hide Pixels, Nearest, Middle;
    StartPixels(line, start, glyph);
    if x <= 0 {
      NearestEdge(line, start, end, start, x, glyph);
      return start;
    }
    var pixels: nat := 0;
    q := start;
    while q < end
      invariant start <= q <= end && Steps(line, start, q)
      invariant pixels == Pixels(line, start, q, glyph) <= x
      invariant forall p | start <= p < q && Steps(line, start, p) :: Middle(line, start, p, glyph) <= x
      decreases end - q
    {
      StepBetween(line, start, q, end);
      StepMore(line, start, q);
      PixelsMore(line, start, q, glyph);
      var next := NextStart(line, q);
      var advance := glyph(line[q..next]);
      MiddleIs(line, start, q, glyph);
      OneStepOn(line, start, q);
      if x < pixels + advance / 2 {
        NearestOfTwo(line, start, end, q, q, x, glyph);
        return;
      }
      if x < pixels + advance {
        NearestOfTwo(line, start, end, q, next, x, glyph);
        if next < end { StepBetween(line, start, next, end); MiddleIs(line, start, next, glyph); }
        q := next;
        return;
      }
      pixels := pixels + advance;
      q := next;
    }
    NearestEdge(line, start, end, end, x, glyph);
  }

  lemma MiddleIs(line: Line, start: nat, p: nat, glyph: Glyph)
    requires start <= p < |line|
    ensures Middle(line, start, p, glyph) == Pixels(line, start, p, glyph) + glyph(line[p..Behind(line, p)]) / 2
  {
  }

  /** The places up to the next one are those up to this one, and this one. */
  lemma OneStepOn(line: Line, start: nat, q: nat)
    requires start <= q < |line| && Steps(line, start, q)
    ensures forall p | start <= p < Behind(line, q) && Steps(line, start, p) :: p <= q
  {
    forall p | start <= p < Behind(line, q) && Steps(line, start, p) ensures p <= q {
      if q < p { StepBetween(line, start, q, p); }
    }
  }

  /** Going back over the character begun at `p`. */
  lemma {:induction false} BackOver(l: Line, p: nat, q: nat)
    requires p < q <= |l| && Boundary(l, p) && forall k | p < k < q :: Continues(l[k])
    ensures Before(l, q) == p
    decreases q
  {
    if q - 1 > p { BackOver(l, p, q - 1); }
  }

  /** The last character of a row. */
  lemma {:induction false} LastStep(line: Line, start: nat, end: nat)
    requires start < end <= |line| && Steps(line, start, end) && Boundary(line, start)
    ensures var l := Before(line, end); start <= l && Steps(line, start, l) && Behind(line, l) == end
    decreases end - start
  {
    var next := Behind(line, start);
    if next == end {
      BackOver(line, start, end);
    } else {
      StepBoundary(line, start, end);
      LastStep(line, next, end);
    }
  }

  /** The end of a row is chosen exactly from the middle of its last character on. */
  lemma ChosenEnd(line: Line, start: nat, end: nat, q: nat, x: int, glyph: Glyph)
    requires start < end <= |line| && Steps(line, start, end) && Boundary(line, start)
    requires Chosen(line, start, end, q, x, glyph)
    ensures start <= Before(line, end)
    ensures q == end <==> x > 0 && Middle(line, start, Before(line, end), glyph) <= x
  {
    hide Middle, Steps, Boundary;
    LastStep(line, start, end);
    var l := Before(line, end);
    if q < end && x > 0 {
      OneStepOn(line, start, l);
      if q < l { MiddleBefore(line, start, q, l, glyph); }
    }
  }

  // ----- walking over the rows

  lemma NextRowOf(rows: seq<Row>, n: nat, w: Row, rest: seq<Row>)
    requires n <= |rows| && rows[n..] == [w] + rest
    ensures n < |rows| && rows[n] == w && rows[n+1..] == rest
  {
    assert rows[n..][0] == w;
    assert rows[n+1..] == rows[n..][1..];
  }

  lemma WrapRow(line: Line, r: nat, p: nat, width: nat, glyph: Glyph, rest: seq<Row>)
    requires p < |line|
    ensures var end := RowEnd(line, p, width, glyph);
            RowsFrom(line, r, p, width, glyph) + rest == [Row(r, p, end)]
                + (RowsFrom(line, r, end, width, glyph) + rest)
  {
  }

  lemma LineDone(line: Line, r: nat, width: nat, glyph: Glyph, rest: seq<Row>)
    ensures RowsFrom(line, r, |line|, width, glyph) + rest == rest
  {
  }

  /** The soft-wrapped view of a document. */
  class Screen {
    const pad: N.Notepad
    const glyph: Glyph
    var width: int            // aktualny_prostokat_edytora().szerokosc
    var height: int           // aktualny_prostokat_edytora().wysokosc / LINE_H
    var scroll: int           // scroll_y

    constructor (pad: N.Notepad, glyph: Glyph, width: int, height: int)
      ensures this.pad == pad && this.glyph == glyph && this.width == width && this.height == height && scroll == 0
    {
      this.pad, this.glyph, this.width, this.height, this.scroll := pad, glyph, width, height, 0;
    }

    ghost function AllRows(): seq<Row>
      reads this, pad
    {
      Rows(pad.text, 0, Wide(width), glyph)
    }

    /** The bytes of line `r`, found at `offset`. */
    method LineAt(ghost r: nat, offset: nat) returns (line: Line)
      requires pad.Valid() && r < |pad.text| && offset == Offset(pad.text, r)
      ensures line == pad.text[r] && offset + |line| < pad.used && offset + |line| + 1 == Offset(pad.text, r + 1)
    {
      hide Flat, Plain;
      LineInFlat(pad.text, r);
      var n := pad.ToNul(offset);
      N.LineEnds(pad.doc[..pad.used], pad.text, r, offset, n);
      line := pad.doc[offset..offset + n];
      N.NoNulInside(pad.doc[..pad.used], pad.text, r, offset);
      forall k | 0 <= k < n ensures line[k] == pad.text[r][k] {
        assert pad.doc[..pad.used][offset + k] == line[k];
      }
    }

    /** `liczba_wierszy_ekranowych` (notatnik.cpp:1075-1101). */
    method CountRows() returns (n: nat)
      requires pad.Valid()
      ensures n == |AllRows()| > 0
    {
      hide Flat, Plain, RowEnd, RowsFrom, Rows;
      ghost var all := AllRows();
      SomeRows(pad.text, Wide(width), glyph);
      n := 0;
      var offset, r := 0, 0;
      FirstOffset(pad.text);
      while r < pad.lines && offset < pad.used
        invariant 0 <= r <= |pad.text| && offset == Offset(pad.text, r)
        invariant r < |pad.text| ==> offset < pad.used
        invariant n <= |all| && all[n..] == Rows(pad.text, r, Wide(width), glyph)
      {
        var line := LineAt(r, offset);
        ghost var rest := Rows(pad.text, r + 1, Wide(width), glyph);
        RowsSplit(pad.text, r, Wide(width), glyph);
        if line == [] {
          NextRowOf(all, n, Row(r, 0, 0), rest);
          n := n + 1;
        } else {
          var p := 0;
          while p < |line|
            invariant 0 <= p <= |line| && n <= |all|
            invariant all[n..] == RowsFrom(line, r, p, Wide(width), glyph) + rest
          {
            var next := WrapAt(line, p, width, glyph);
            WrapRow(line, r, p, Wide(width), glyph, rest);
            NextRowOf(all, n, Row(r, p, next), RowsFrom(line, r, next, Wide(width), glyph) + rest);
            n := n + 1;
            p := next;
          }
          LineDone(line, r, Wide(width), glyph, rest);
        }
        offset := offset + |line| + 1;
        r := r + 1;
        MoreOffset(pad.text, r);
      }
      NoRowsLeft(pad.text, Wide(width), glyph);
    }

    /** `pobierz_wiersz_ekranowy` (notatnik.cpp:1103-1141). */
    method FetchRow(index: int) returns (ok: bool, w: Row)
      requires pad.Valid()
      ensures ok <==> 0 <= index < |AllRows()|
      ensures ok ==> w == AllRows()[index]
    {
      hide Flat, Plain, RowEnd, RowsFrom, Rows;
      ghost var all := AllRows();
      ok, w := false, Row(0, 0, 0);
      if index < 0 { return; }
      var n, offset, r := 0, 0, 0;
      FirstOffset(pad.text);
      while r < pad.lines && offset < pad.used
        invariant 0 <= r <= |pad.text| && offset == Offset(pad.text, r)
        invariant r < |pad.text| ==> offset < pad.used
        invariant n <= |all| && all[n..] == Rows(pad.text, r, Wide(width), glyph)
        invariant !ok && n <= index
      {
        var line := LineAt(r, offset);
        ghost var rest := Rows(pad.text, r + 1, Wide(width), glyph);
        RowsSplit(pad.text, r, Wide(width), glyph);
        if line == [] {
          NextRowOf(all, n, Row(r, 0, 0), rest);
          if n == index { return true, Row(r, 0, 0); }
          n := n + 1;
        } else {
          var p := 0;
          while p < |line|
            invariant 0 <= p <= |line| && n <= |all|
            invariant all[n..] == RowsFrom(line, r, p, Wide(width), glyph) + rest
            invariant !ok && n <= index
          {
            var next := WrapAt(line, p, width, glyph);
            WrapRow(line, r, p, Wide(width), glyph, rest);
            NextRowOf(all, n, Row(r, p, next), RowsFrom(line, r, next, Wide(width), glyph) + rest);
            if n == index { return true, Row(r, p, next); }
            n := n + 1;
            p := next;
          }
          LineDone(line, r, Wide(width), glyph, rest);
        }
        offset := offset + |line| + 1;
        r := r + 1;
        MoreOffset(pad.text, r);
      }
      NoRowsLeft(pad.text, Wide(width), glyph);
    }

    /** `nastepny_wiersz_ekranowy` (notatnik.cpp:1143-1173): what comes right under row `w`; from a row of the document
        that is the next one. */
    method NextRow(w: Row) returns (ok: bool, v: Row)
      requires pad.Valid()
      ensures ok <==> w.line < |pad.text| && (w.end < |pad.text[w.line]| || w.line + 1 < |pad.text|)
      ensures ok ==> Under(pad.text, w, v) && v.line < |pad.text|
      ensures ok ==> v.end == RowEndOrEmpty(pad.text[v.line], v.start, Wide(width), glyph)
      ensures forall i | 0 <= i < |AllRows()| && AllRows()[i] == w ::
                (ok <==> i + 1 < |AllRows()|) && (ok ==> v == AllRows()[i + 1])
    {
      ok, v := UnderRow(w);
      hide Flat, Plain, Rows, Under, RowEndOrEmpty;
      forall i | 0 <= i < |AllRows()| && AllRows()[i] == w
        ensures (ok <==> i + 1 < |AllRows()|) && (ok ==> v == AllRows()[i + 1])
      {
        NextIs(pad.text, i, ok, v, Wide(width), glyph);
      }
    }

    method UnderRow(w: Row) returns (ok: bool, v: Row)
      requires pad.Valid()
      ensures ok <==> w.line < |pad.text| && (w.end < |pad.text[w.line]| || w.line + 1 < |pad.text|)
      ensures ok ==> Under(pad.text, w, v) && v.line < |pad.text|
      ensures ok ==> v.end == RowEndOrEmpty(pad.text[v.line], v.start, Wide(width), glyph)
    {
      hide Flat, Plain, RowEnd, Rows, Boundary, Steps, Pixels;
      ok, v := false, w;
      if w.line >= pad.lines { return; }
      var n := pad.LineLength(w.line);
      if w.end < n {
        var offset := pad.LineOffset(w.line);
        var line := LineAt(w.line, offset);
        var end := WrapAt(line, w.end, width, glyph);
        return true, Row(w.line, w.end, end);
      }
      if w.line + 1 >= pad.lines { return; }
      var offset := pad.LineOffset(w.line + 1);
      var line := LineAt(w.line + 1, offset);
      if line == [] { return true, Row(w.line + 1, 0, 0); }
      var end := WrapAt(line, 0, width, glyph);
      return true, Row(w.line + 1, 0, end);
    }

    /** `wiersz_ekranowy_kursora` (notatnik.cpp:1175-1203). */
    method CursorRow() returns (n: nat)
      requires pad.Valid()
      ensures n < |AllRows()| && Holds(pad.text, AllRows()[n], pad.row, pad.col)
    {
      hide Flat, Plain, RowEnd, RowsFrom, Rows;
      ghost var all := AllRows();
      n := 0;
      var offset, r := 0, 0;
      FirstOffset(pad.text);
      while r < pad.lines && offset < pad.used
        invariant 0 <= r <= pad.row && offset == Offset(pad.text, r) && offset < pad.used
        invariant n <= |all| && all[n..] == Rows(pad.text, r, Wide(width), glyph)
        decreases pad.lines - r
      {
        var line := LineAt(r, offset);
        ghost var rest := Rows(pad.text, r + 1, Wide(width), glyph);
        RowsSplit(pad.text, r, Wide(width), glyph);
        if line == [] {
          NextRowOf(all, n, Row(r, 0, 0), rest);
          if r == pad.row { return; }
          n := n + 1;
        } else {
          var p := 0;
          while p < |line|
            invariant 0 <= p <= |line| && n <= |all|
            invariant all[n..] == RowsFrom(line, r, p, Wide(width), glyph) + rest
            invariant r == pad.row ==> p <= pad.col && p < |line|
          {
            var next := WrapAt(line, p, width, glyph);
            WrapRow(line, r, p, Wide(width), glyph, rest);
            NextRowOf(all, n, Row(r, p, next), RowsFrom(line, r, next, Wide(width), glyph) + rest);
            if r == pad.row && (pad.col < next || next == |line|) { return; }
            n := n + 1;
            p := next;
          }
          LineDone(line, r, Wide(width), glyph, rest);
        }
        offset := offset + |line| + 1;
        r := r + 1;
        MoreOffset(pad.text, r);
      }
    }

    /** A scroll position that shows row `at` and no more empty room than it must. */
    ghost predicate Shows(s: int, at: int)
      reads this, pad
    {
      0 <= s <= at < s + Max(1, height) && s <= Max(0, |AllRows()| - Max(1, height))
    }

    /** `dopasuj_scroll_do_kursora` (notatnik.cpp:1333-1366): the nearest scroll position that shows the cursor. */
    method FitScroll() returns (at: nat)
      requires pad.Valid()
      modifies pad`lines, pad`row, pad`col, this`scroll
      ensures pad.Valid() && pad.View() == Snapped(old(pad.View())) && AllRows() == old(AllRows())
      ensures at < |AllRows()| && Holds(pad.text, AllRows()[at], pad.row, pad.col)
      ensures Shows(scroll, at)
      ensures forall s | Shows(s, at) :: Distance(scroll, old(scroll)) <= Distance(s, old(scroll))
    {
      pad.Normalise();
      var visible := Max(1, height);
      var total := CountRows();
      at := CursorRow();
      var most := Max(0, total - visible);
      scroll := N.Clamp(scroll, 0, most);
      if at < scroll { scroll := at; }
      if at >= scroll + visible { scroll := at - visible + 1; }
      scroll := N.Clamp(scroll, 0, most);
    }

    /** The place in row `v` under or over the cursor, which stands in row `w`. */
    method Aim(w: Row, v: Row) returns (q: nat)
      requires pad.Valid() && Boundary(pad.text[pad.row], pad.col)
      requires Holds(pad.text, w, pad.row, pad.col) && RowFits(pad.text, v, Wide(width), glyph)
      ensures v.start <= q <= v.end <= |pad.text[v.line]| && Steps(pad.text[v.line], v.start, q)
      ensures var x := CursorX(pad.View(), w, glyph);
              Chosen(pad.text[v.line], v.start, v.end, q, x, glyph)
                  && Nearest(pad.text[v.line], v.start, v.end, q, x, glyph)
    {
      hide Flat, Plain, Rows, Boundary, Pixels, Nearest, Middle;
      var offset := pad.LineOffset(w.line);
      var line := LineAt(w.line, offset);
      var x := Measure(line, w.start, pad.col, glyph);
      offset := pad.LineOffset(v.line);
      line := LineAt(v.line, offset);
      q := PlaceAt(line, v.start, v.end, x, glyph);
      NearestInside(line, v.start, v.end, q, x, glyph);
    }

    /** Where the cursor of `d`, in row `w`, lands in row `v`: between two characters, at the place chosen for where it
        stood, which is as near as any place of the row, to a pixel. */
    ghost predicate Lands(d: Doc, e: Doc, w: Row, v: Row)
      reads this
    {
      && e.text == d.text && w.line == d.row < |d.text| && w.start <= d.col <= |d.text[d.row]|
      && e.row == v.line < |e.text| && v.start <= e.col <= v.end <= |e.text[e.row]|
      && Boundary(e.text[e.row], e.col)
      && Chosen(e.text[e.row], v.start, v.end, e.col, CursorX(d, w, glyph), glyph)
      && Nearest(e.text[e.row], v.start, v.end, e.col, CursorX(d, w, glyph), glyph)
    }

    /** The common body of `kursor_gora` and `kursor_dol` (notatnik.cpp:891-929). */
    method Jump(step: int, ghost k: nat)
      requires pad.Valid() && k < |AllRows()| && Holds(pad.text, AllRows()[k], pad.row, Snapped(pad.View()).col)
      modifies pad`lines, pad`row, pad`col
      ensures pad.Valid() && pad.text == old(pad.text)
      ensures !(0 <= k + step < |AllRows()|) ==> pad.View() == Snapped(old(pad.View()))
      ensures 0 <= k + step < |AllRows()|
              ==> Lands(Snapped(old(pad.View())), pad.View(), AllRows()[k], AllRows()[k + step])
    {
      hide Flat, Plain, Rows, Nearest, Chosen, Pixels, Boundary, GoodEnd;
      pad.Normalise();
      var at := CursorRow();
      OneRowHolds(pad.text, at, k, pad.row, pad.col, Wide(width), glyph);
      var found, w := FetchRow(at);
      var reached, v := FetchRow(at + step);
      if !reached { return; }
      RowStands(pad.text, k + step, Wide(width), glyph);
      var q := Aim(w, v);
      StepsBoundary(pad.text[v.line], v.start, q);
      pad.row := v.line;
      pad.col := q;
    }

    /** `kursor_gora` (notatnik.cpp:891-909). The cursor reaches the row above unless it stands right of the middle of
        the last character of a wrapped row: then it lands on the wrap, which is drawn in the row it came from. */
    method Up(ghost k: nat)
      requires pad.Valid() && k < |AllRows()| && Holds(pad.text, AllRows()[k], pad.row, Snapped(pad.View()).col)
      modifies pad`lines, pad`row, pad`col
      ensures pad.Valid() && pad.text == old(pad.text)
      ensures k == 0 ==> pad.View() == Snapped(old(pad.View()))
      ensures k > 0 ==> Lands(Snapped(old(pad.View())), pad.View(), AllRows()[k], AllRows()[k-1])
      ensures k > 0 ==>
                (Holds(pad.text, AllRows()[k-1], pad.row, pad.col)
                 <==> Reaches(old(pad.text), AllRows()[k-1], CursorX(Snapped(old(pad.View())), AllRows()[k], glyph),
                     glyph))
      ensures k > 0 ==>
                Holds(pad.text, AllRows()[k-1], pad.row, pad.col) || Holds(pad.text, AllRows()[k], pad.row, pad.col)
    {
      hide Flat, Plain, Rows, Nearest, Chosen, Pixels, Boundary, GoodEnd, Holds, Reaches, CursorX;
      ghost var d := Snapped(pad.View());
      Jump(-1, k);
      if k > 0 { LandedRow(pad.text, k - 1, pad.col, CursorX(d, AllRows()[k], glyph), Wide(width), glyph); }
    }

    /** `kursor_dol` (notatnik.cpp:911-929): one row down, or two when it lands on a wrap. */
    method Down(ghost k: nat)
      requires pad.Valid() && k < |AllRows()| && Holds(pad.text, AllRows()[k], pad.row, Snapped(pad.View()).col)
      modifies pad`lines, pad`row, pad`col
      ensures pad.Valid() && pad.text == old(pad.text)
      ensures k + 1 == |AllRows()| ==> pad.View() == Snapped(old(pad.View()))
      ensures k + 1 < |AllRows()| ==> Lands(Snapped(old(pad.View())), pad.View(), AllRows()[k], AllRows()[k+1])
      ensures k + 1 < |AllRows()| ==>
                (Holds(pad.text, AllRows()[k+1], pad.row, pad.col)
                 <==> Reaches(old(pad.text), AllRows()[k+1], CursorX(Snapped(old(pad.View())), AllRows()[k], glyph),
                     glyph))
      ensures k + 1 < |AllRows()| ==>
                || Holds(pad.text, AllRows()[k+1], pad.row, pad.col)
                || (k + 2 < |AllRows()| && Holds(pad.text, AllRows()[k+2], pad.row, pad.col))
    {
      hide Flat, Plain, Rows, Nearest, Chosen, Pixels, Boundary, GoodEnd, Holds, Reaches, CursorX;
      ghost var d := Snapped(pad.View());
      Jump(1, k);
      if k + 1 < |AllRows()| {
        LandedRow(pad.text, k + 1, pad.col, CursorX(d, AllRows()[k], glyph), Wide(width), glyph);
      }
    }
  }

  /** How far right the cursor stands in its row. */
  function CursorX(d: Doc, w: Row, glyph: Glyph): nat {
    if d.row < |d.text| && w.start <= |d.text[d.row]| then Pixels(d.text[d.row], w.start, d.col, glyph) else 0
  }

  /** Does a cursor that stood at `x` reach row `v`? Not from the middle of its last character on, if it is wrapped. */
  predicate Reaches(text: seq<Line>, v: Row, x: int, glyph: Glyph) {
    && v.line < |text| && v.end <= |text[v.line]|
    && var line := text[v.line];
    || v.end == |line|
    || x <= 0
    || (v.start < v.end && v.start <= Before(line, v.end) && x < Middle(line, v.start, Before(line, v.end), glyph))
  }

  lemma RowStands(text: seq<Line>, i: nat, width: nat, glyph: Glyph)
    requires text != [] && i < |Rows(text, 0, width, glyph)|
    ensures RowFits(text, Rows(text, 0, width, glyph)[i], width, glyph)
  {
    hide RowFits, Rows;
    RowsPartition(text, 0, width, glyph);
  }

  lemma StepsBoundary(line: Line, p: nat, q: nat)
    requires p <= q <= |line| && Steps(line, p, q) && Boundary(line, p)
    ensures Boundary(line, q)
  {
    if p < q { StepBoundary(line, p, q); }
  }

  /** A place chosen in row `i` is drawn there, but for the wrap at its end. */
  lemma LandedRow(text: seq<Line>, i: nat, q: nat, x: int, width: nat, glyph: Glyph)
    requires text != [] && i < |Rows(text, 0, width, glyph)|
    requires var v := Rows(text, 0, width, glyph)[i];
             && v.line < |text| && v.start <= q <= v.end <= |text[v.line]|
             && Chosen(text[v.line], v.start, v.end, q, x, glyph)
    ensures var rows := Rows(text, 0, width, glyph); var v := rows[i];
            && (Holds(text, v, v.line, q) <==> Reaches(text, v, x, glyph))
            && (Holds(text, v, v.line, q) || (i + 1 < |rows| && Holds(text, rows[i+1], v.line, q)))
  {
    var rows := Rows(text, 0, width, glyph);
    RowUnder(text, i, width, glyph);
    RowStands(text, i, width, glyph);
    if i + 1 < |rows| { RowStands(text, i + 1, width, glyph); }
    hide Rows, Boundary, Pixels, Steps, RowEnd, Middle, Chosen;
    if rows[i].end < |text[rows[i].line]| {
      ChosenEnd(text[rows[i].line], rows[i].start, rows[i].end, q, x, glyph);
    }
  }

  lemma NearestInside(line: Line, start: nat, end: nat, q: nat, x: int, glyph: Glyph)
    requires start <= end <= |line| && Nearest(line, start, end, q, x, glyph)
    ensures start <= q <= end && Steps(line, start, q)
  {
  }

  /** The end of a row begun at `start`; an empty line's row ends where it begins. */
  function RowEndOrEmpty(line: Line, start: nat, width: nat, glyph: Glyph): nat {
    if start < |line| then RowEnd(line, start, width, glyph) else 0
  }

  /** The row under row `i`, in full. */
  ghost predicate Next(text: seq<Line>, rows: seq<Row>, i: nat, width: nat, glyph: Glyph)
    requires i < |rows|
  {
    && rows[i].line < |text| && rows[i].end <= |text[rows[i].line]|
    && (i + 1 < |rows| <==> rows[i].end < |text[rows[i].line]| || rows[i].line + 1 < |text|)
    && (i + 1 < |rows| ==>
          && rows[i+1].line < |text|
          && Under(text, rows[i], rows[i+1])
          && rows[i+1].end == RowEndOrEmpty(text[rows[i+1].line], rows[i+1].start, width, glyph))
  }

  lemma RowUnder(text: seq<Line>, i: nat, width: nat, glyph: Glyph)
    requires text != [] && i < |Rows(text, 0, width, glyph)|
    ensures Next(text, Rows(text, 0, width, glyph), i, width, glyph)
  {
    var rows := Rows(text, 0, width, glyph);
    RowsPartition(text, 0, width, glyph);
    hide Rows, Boundary, Steps, Pixels, RowEnd;
    assert RowFits(text, rows[i], width, glyph);
    if i + 1 < |rows| {
      var b := rows[i+1];
      assert RowFits(text, b, width, glyph);
      if text[b.line] != [] { RowEndOnly(text[b.line], b.start, b.end, width, glyph); }
    } else {
      LastRow(text, rows, i, width, glyph);
    }
  }

  lemma NextIs(text: seq<Line>, i: nat, ok: bool, v: Row, width: nat, glyph: Glyph)
    requires text != [] && i < |Rows(text, 0, width, glyph)|
    requires var w := Rows(text, 0, width, glyph)[i];
             && (ok <==> w.line < |text| && (w.end < |text[w.line]| || w.line + 1 < |text|))
             && (ok ==>
               Under(text, w, v) && v.line < |text| && v.end == RowEndOrEmpty(text[v.line], v.start, width, glyph))
    ensures var rows := Rows(text, 0, width, glyph); (ok <==> i + 1 < |rows|) && (ok ==> v == rows[i+1])
  {
    hide Rows, RowEndOrEmpty;
    RowUnder(text, i, width, glyph);
  }

  lemma LastRow(text: seq<Line>, rows: seq<Row>, i: nat, width: nat, glyph: Glyph)
    requires text != [] && |rows| > 0 && i == |rows| - 1
    requires rows[|rows|-1].line == |text| - 1 && rows[|rows|-1].end == |text[|text|-1]|
    ensures rows[i].end == |text[rows[i].line]| && rows[i].line + 1 == |text|
  {
  }

  lemma FirstOffset(text: seq<Line>)
    requires text != []
    ensures Offset(text, 0) == 0 < |Flat(text)|
  {
    assert text[..0] == [];
  }

  lemma MoreOffset(text: seq<Line>, r: nat)
    requires r <= |text|
    ensures r < |text| ==> Offset(text, r) < |Flat(text)|
  {
    if r < |text| { LineInFlat(text, r); }
  }

  lemma RowsSplit(text: seq<Line>, r: nat, width: nat, glyph: Glyph)
    requires r < |text|
    ensures Rows(text, r, width, glyph)
         == if text[r] == [] then [Row(r, 0, 0)] + Rows(text, r + 1, width, glyph)
            else RowsFrom(text[r], r, 0, width, glyph) + Rows(text, r + 1, width, glyph)
  {
  }

  lemma SomeRows(text: seq<Line>, width: nat, glyph: Glyph)
    requires text != []
    ensures Rows(text, 0, width, glyph) != []
  {
    hide Rows;
    RowsPartition(text, 0, width, glyph);
  }

  lemma NoRowsLeft(text: seq<Line>, width: nat, glyph: Glyph)
    ensures Rows(text, |text|, width, glyph) == []
  {
  }

  // ----- where the up key does not leave its row

  /** A line of `n` letters of the same width. */
  function Letters(n: nat): Line {
    seq(n, _ => 97)
  }

  lemma LetterStep(n: nat, p: nat)
    requires p < n
    ensures Behind(Letters(n), p) == p + 1 && Before(Letters(n), p + 1) == p
  {
  }

  lemma OnePixelStep(line: Line, p: nat, q: nat, glyph: Glyph)
    requires p < q <= |line| && Behind(line, p) == p + 1
    ensures Pixels(line, p, q, glyph) == glyph(line[p..p + 1]) + Pixels(line, p + 1, q, glyph)
    ensures Steps(line, p, q) <==> Steps(line, p + 1, q)
  {
  }

  lemma OneMoreTime(k: nat, g: nat)
    ensures (k + 1) * g == g + k * g
  {
  }

  lemma {:induction false} LetterPixels(n: nat, p: nat, q: nat, g: nat, glyph: Glyph)
    requires p <= q <= n && forall c: Line :: glyph(c) == g
    ensures |Letters(n)| == n && Pixels(Letters(n), p, q, glyph) == (q - p) * g && Steps(Letters(n), p, q)
    decreases q - p
  {
    hide Pixels, Behind, Before;
    if p < q {
      LetterPixels(n, p + 1, q, g, glyph);
      LetterStep(n, p);
      OneMoreTime(q - p - 1, g);
      hide Letters, Steps;
      OnePixelStep(Letters(n), p, q, glyph);
    } else {
      StartPixels(Letters(n), p, glyph);
    }
  }

  /** Two full rows of one line, the cursor at its end: however wide the view, the up key lands on the wrap between
      them, which is the start of the very row the cursor was in. */
  lemma UpStays(n: nat, g: nat, width: nat, glyph: Glyph)
    requires n > 0 && g > 0 && n * g <= width < (n + 1) * g && forall c: Line :: glyph(c) == g
    ensures var text, rows := [Letters(2 * n)], [Row(0, 0, n), Row(0, n, 2 * n)];
            && Rows(text, 0, width, glyph) == rows
            && Holds(text, rows[1], 0, 2 * n)
            && !Reaches(text, rows[0], CursorX(Doc(text, 0, 2 * n), rows[1], glyph), glyph)
            && Holds(text, rows[1], 0, n)
  {
    hide Pixels, Behind, Before, Letters, Rows, Steps, Middle;
    var line := Letters(2 * n);
    LetterPixels(2 * n, n, 2 * n, g, glyph);
    LetterPixels(2 * n, 0, n - 1, g, glyph);
    LetterRow(n, 0, g, width, glyph);
    LetterRow(n, n, g, width, glyph);
    LetterStep(2 * n, n - 1);
    MiddleIs(line, 0, n - 1, glyph);
    OneMoreTime(n - 1, g);
    TwoRows(line, n, width, glyph);
  }

  lemma LetterRow(n: nat, p: nat, g: nat, width: nat, glyph: Glyph)
    requires n > 0 && g > 0 && n * g <= width < (n + 1) * g && forall c: Line :: glyph(c) == g
    requires p == 0 || p == n
    ensures |Letters(2 * n)| == 2 * n && RowEnd(Letters(2 * n), p, width, glyph) == p + n
  {
    hide Pixels, Behind, Before, Letters, Steps, RowEnd;
    var line := Letters(2 * n);
    LetterPixels(2 * n, p, p + n, g, glyph);
    if p == 0 {
      LetterPixels(2 * n, 0, n + 1, g, glyph);
      LetterStep(2 * n, n);
    }
    RowEndOnly(line, p, p + n, width, glyph);
  }

  lemma TwoRows(line: Line, n: nat, width: nat, glyph: Glyph)
    requires 0 < n < |line| && RowEnd(line, 0, width, glyph) == n && RowEnd(line, n, width, glyph) == |line|
    ensures Rows([line], 0, width, glyph) == [Row(0, 0, n), Row(0, n, |line|)]
  {
    assert RowsFrom(line, 0, |line|, width, glyph) == [];
    assert RowsFrom(line, 0, n, width, glyph) == [Row(0, n, |line|)];
    assert RowsFrom(line, 0, 0, width, glyph) == [Row(0, 0, n)] + [Row(0, n, |line|)];
    assert Rows([line], 1, width, glyph) == [];
  }
}
