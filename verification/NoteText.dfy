// Documents of the text editor (notatnik.cpp): lines and a cursor, UTF-8 character boundaries, and
// the one flat NUL-separated sequence they are kept in.
module NoteText {
  type Byte = b: int | 0 <= b < 256
  type Line = seq<Byte>

  const NUL: Byte := 0
  const LF: Byte := 10
  const CR: Byte := 13

  /** A line holds no separator. */
  predicate Plain(line: Line) {
    NUL !in line && LF !in line && CR !in line
  }

  /** Lines and cursor, as the user thinks of them. */
  datatype Doc = Doc(text: seq<Line>, row: nat, col: nat)

  // ----- UTF-8

  /** `utf8_kontynuacja`. */
  predicate Continues(b: Byte) {
    0x80 <= b < 0xC0
  }

  /** A place between two characters. */
  predicate Boundary(line: Line, p: nat) {
    p <= |line| && (p == 0 || p == |line| || !Continues(line[p]))
  }

  /** `utf8_poprzedni_start`: where the character before `p` begins. */
  function Before(line: Line, p: nat): (q: nat)
    requires 0 < p <= |line|
    ensures q < p && Boundary(line, q) && forall k | q < k < p :: Continues(line[k])
  {
    if p == 1 || !Continues(line[p-1]) then p - 1 else Before(line, p - 1)
  }

  /** `utf8_nastepny_start`: where the next character begins. */
  function Behind(line: Line, p: nat): (q: nat)
    requires p < |line|
    ensures p < q <= |line| && Boundary(line, q) && forall k | p < k < q :: Continues(line[k])
    decreases |line| - p
  {
    if p + 1 == |line| || !Continues(line[p+1]) then p + 1 else Behind(line, p + 1)
  }

  /** The number of bytes a character starting so needs (notatnik.cpp:727-730). */
  function Needs(lead: Byte): nat {
    if 0xC2 <= lead <= 0xDF then 2
    else if 0xE0 <= lead <= 0xEF then 3
    else if 0xF0 <= lead <= 0xF4 then 4
    else 1
  }

  /** One typed character: a first byte and the continuation bytes it calls for. */
  predicate IsChar(c: seq<Byte>) {
    && c != [] && |c| == Needs(c[0]) && c[0] >= 0x20 && !Continues(c[0])
    && forall k | 0 < k < |c| :: Continues(c[k])
  }

  // ----- editing, on lines

  ghost predicate Sensible(d: Doc) {
    && d.row < |d.text| && d.col <= |d.text[d.row]|
    && (forall i | 0 <= i < |d.text| :: Plain(d.text[i]))
  }

  /** `utf8_przytnij_do_granicy`: the boundary at or before `p`. */
  function Snap(line: Line, p: nat): (q: nat)
    requires p <= |line|
    ensures q <= p && Boundary(line, q) && forall k | q < k <= p :: !Boundary(line, k)
  {
    if p == 0 || p == |line| || !Continues(line[p]) then p else Snap1(line, p)
  }

  function Snap1(line: Line, p: nat): (q: nat)
    requires p < |line|
    ensures q <= p && Boundary(line, q) && forall k | q < k <= p :: !Boundary(line, k)
  {
    if p == 0 || !Continues(line[p]) then p else Snap1(line, p - 1)
  }

  /** `normalizuj_kursor`, which every edit begins with. */
  function Snapped(d: Doc): (e: Doc)
    requires d.row < |d.text| && d.col <= |d.text[d.row]|
    ensures e.text == d.text && e.row == d.row && e.col <= d.col && Boundary(e.text[e.row], e.col)
    ensures Boundary(d.text[d.row], d.col) ==> e == d
  {
    d.(col := Snap(d.text[d.row], d.col))
  }

  function WithLine(text: seq<Line>, r: nat, line: Line): seq<Line>
    requires r < |text|
  {
    text[r := line]
  }

  function Inserted(d: Doc, bytes: seq<Byte>): Doc
    requires d.row < |d.text| && d.col <= |d.text[d.row]|
  {
    var l := d.text[d.row];
    Doc(WithLine(d.text, d.row, l[..d.col] + bytes + l[d.col..]), d.row, d.col + |bytes|)
  }

  /** Enter. */
  function Broken(d: Doc): Doc
    requires d.row < |d.text| && d.col <= |d.text[d.row]|
  {
    var l := d.text[d.row];
    Doc(d.text[..d.row] + [l[..d.col], l[d.col..]] + d.text[d.row+1..], d.row + 1, 0)
  }

  function Joined(text: seq<Line>, r: nat): seq<Line>
    requires r + 1 < |text|
  {
    text[..r] + [text[r] + text[r+1]] + text[r+2..]
  }

  /** Backspace. */
  function Backspaced(d: Doc): Doc
    requires d.row < |d.text| && d.col <= |d.text[d.row]|
  {
    var l := d.text[d.row];
    if d.col > 0 then
      var start := Before(l, d.col);
      Doc(WithLine(d.text, d.row, l[..start] + l[d.col..]), d.row, start)
    else if d.row > 0 then Doc(Joined(d.text, d.row - 1), d.row - 1, |d.text[d.row-1]|)
    else d
  }

  /** Delete. */
  function Deleted(d: Doc): Doc
    requires d.row < |d.text| && d.col <= |d.text[d.row]|
  {
    var l := d.text[d.row];
    if d.col < |l| then Doc(WithLine(d.text, d.row, l[..d.col] + l[Behind(l, d.col)..]), d.row, d.col)
    else if d.row + 1 < |d.text| then Doc(Joined(d.text, d.row), d.row, d.col)
    else d
  }

  function MovedLeft(d: Doc): Doc
    requires d.row < |d.text| && d.col <= |d.text[d.row]|
  {
    if d.col > 0 then d.(col := Before(d.text[d.row], d.col))
    else if d.row > 0 then d.(row := d.row - 1, col := |d.text[d.row-1]|)
    else d
  }

  function MovedRight(d: Doc): Doc
    requires d.row < |d.text| && d.col <= |d.text[d.row]|
  {
    if d.col < |d.text[d.row]| then d.(col := Behind(d.text[d.row], d.col))
    else if d.row + 1 < |d.text| then d.(row := d.row + 1, col := 0)
    else d
  }

  // ----- what the edits keep

  lemma PlainConcat(a: Line, b: Line)
    ensures Plain(a + b) <==> Plain(a) && Plain(b)
  {
    assert forall x: Byte :: x in a + b <==> x in a || x in b;
  }

  lemma PlainParts(l: Line, p: nat)
    requires p <= |l| && Plain(l)
    ensures Plain(l[..p]) && Plain(l[p..])
  {
    assert l == l[..p] + l[p..];
    PlainConcat(l[..p], l[p..]);
  }

  lemma InsertSensible(d: Doc, bytes: seq<Byte>)
    requires Sensible(d) && Plain(bytes)
    ensures Sensible(Inserted(d, bytes))
  {
    hide Plain;
    var l := d.text[d.row];
    PlainParts(l, d.col);
    PlainConcat(l[..d.col], bytes);
    PlainConcat(l[..d.col] + bytes, l[d.col..]);
  }

  lemma BreakSensible(d: Doc)
    requires Sensible(d)
    ensures Sensible(Broken(d))
  {
    hide Plain;
    PlainParts(d.text[d.row], d.col);
  }

  lemma CutSensible(d: Doc, p: nat, q: nat)
    requires Sensible(d) && p <= q <= |d.text[d.row]|
    ensures Sensible(Doc(WithLine(d.text, d.row, d.text[d.row][..p] + d.text[d.row][q..]), d.row, p))
  {
    hide Plain;
    PlainParts(d.text[d.row], p);
    PlainParts(d.text[d.row], q);
    PlainConcat(d.text[d.row][..p], d.text[d.row][q..]);
  }

  lemma JoinSensible(text: seq<Line>, r: nat)
    requires r + 1 < |text| && forall i | 0 <= i < |text| :: Plain(text[i])
    ensures forall i | 0 <= i < |Joined(text, r)| :: Plain(Joined(text, r)[i])
    ensures |Joined(text, r)| == |text| - 1 && Joined(text, r)[r] == text[r] + text[r+1]
  {
    hide Plain;
    PlainConcat(text[r], text[r+1]);
  }

  lemma BackspaceSensible(d: Doc)
    requires Sensible(d)
    ensures Sensible(Backspaced(d))
  {
    hide Plain;
    if d.col > 0 {
      CutSensible(d, Before(d.text[d.row], d.col), d.col);
    } else if d.row > 0 {
      JoinSensible(d.text, d.row - 1);
    }
  }

  lemma DeleteSensible(d: Doc)
    requires Sensible(d)
    ensures Sensible(Deleted(d))
  {
    hide Plain;
    if d.col < |d.text[d.row]| {
      CutSensible(d, d.col, Behind(d.text[d.row], d.col));
    } else if d.row + 1 < |d.text| {
      JoinSensible(d.text, d.row);
    }
  }

  // ----- well-formed text

  /** The line is whole characters, one after the other. */
  predicate WholeChars(l: Line)
    decreases |l|
  {
    l == [] || (IsChar(l[..Behind(l, 0)]) && WholeChars(l[Behind(l, 0)..]))
  }

  /** Every line is whole characters, and the cursor stands between two. */
  ghost predicate WellFormed(d: Doc) {
    && Sensible(d) && Boundary(d.text[d.row], d.col)
    && forall i | 0 <= i < |d.text| :: WholeChars(d.text[i])
  }

  lemma CharPlain(c: seq<Byte>)
    requires IsChar(c)
    ensures Plain(c)
  {
  }

  /** Going back over a character just typed stops where it begins. */
  lemma {:induction false} BeforeChar(l: Line, start: nat, p: nat)
    requires start < p <= |l| && (start == 0 || !Continues(l[start])) && forall k | start < k < p :: Continues(l[k])
    ensures Before(l, p) == start
    decreases p
  {
    if p - 1 > start { BeforeChar(l, start, p - 1); }
  }

  lemma {:induction false} BehindChar(l: Line, start: nat, p: nat, q: nat)
    requires start <= p < q <= |l| && (q == |l| || !Continues(l[q])) && forall k | start < k < q :: Continues(l[k])
    ensures Behind(l, p) == q
    decreases q - p
  {
    if p + 1 < q { BehindChar(l, start, p + 1, q); }
  }

  lemma WholeFirst(l: Line)
    requires WholeChars(l) && l != []
    ensures IsChar(l[..Behind(l, 0)]) && WholeChars(l[Behind(l, 0)..]) && !Continues(l[0])
  {
    assert l[..Behind(l, 0)][0] == l[0];
  }

  lemma NoChars()
    ensures WholeChars([])
  {
  }

  /** A character before whole ones. */
  lemma CharFirst(c: seq<Byte>, l: Line)
    requires IsChar(c) && WholeChars(l)
    ensures WholeChars(c + l)
  {
    var m := c + l;
    forall k | 0 < k < |c| ensures Continues(m[k]) { assert m[k] == c[k]; }
    if l != [] { assert m[|c|] == l[0] == l[..Behind(l, 0)][0]; }
    BehindChar(m, 0, 0, |c|);
    assert m[..|c|] == c && m[|c|..] == l;
  }

  lemma {:induction false} WholeConcat(a: Line, b: Line)
    requires WholeChars(a) && WholeChars(b)
    ensures WholeChars(a + b)
    decreases |a|
  {
    hide IsChar, WholeChars;
    if a == [] {
      NothingBefore(b);
    } else {
      var n := Behind(a, 0);
      WholeFirst(a);
      TakeDrop(a, n);
      WholeConcat(a[n..], b);
      CharFirst(a[..n], a[n..] + b);
      Regroup(a[..n], a[n..], b);
    }
  }

  lemma NothingBefore(b: Line)
    ensures [] + b == b
  {
  }

  lemma TakeDrop(l: Line, n: nat)
    requires n <= |l|
    ensures l == l[..n] + l[n..]
  {
  }

  lemma CutTwice(l: Line, n: nat, p: nat)
    requires n <= p <= |l|
    ensures l[n..][p - n..] == l[p..] && l[..p] == l[..n] + l[n..][..p - n]
  {
  }

  lemma SliceTwice(l: Line, n: nat, q: nat, p: nat)
    requires n + q <= p <= |l|
    ensures l[n..][q..p - n] == l[n + q..p]
  {
  }

  /** The first character of a line, and a boundary behind it. */
  lemma FirstChar(l: Line, p: nat)
    requires l != [] && Boundary(l, p) && p > 0
    ensures var n := Behind(l, 0); n <= p && Boundary(l[n..], p - n)
  {
    var n := Behind(l, 0);
    if n <= p < |l| { assert l[n..][p - n] == l[p]; }
  }

  /** Characters stay whole when a line is cut between two. */
  lemma {:induction false} WholeSplit(l: Line, p: nat)
    requires WholeChars(l) && Boundary(l, p)
    ensures WholeChars(l[..p]) && WholeChars(l[p..])
    decreases |l|
  {
    hide IsChar, WholeChars, Behind;
    if p == 0 {
      NoChars();
      assert l[..0] == [] && l[0..] == l;
    } else {
      var n := Behind(l, 0);
      WholeFirst(l);
      FirstChar(l, p);
      WholeSplit(l[n..], p - n);
      CutTwice(l, n, p);
      CharFirst(l[..n], l[n..][..p - n]);
    }
  }

  /** The character before a boundary is a whole one. */
  lemma {:induction false} CharBefore(l: Line, p: nat)
    requires WholeChars(l) && Boundary(l, p) && p > 0
    ensures IsChar(l[Before(l, p)..p])
    decreases |l|
  {
    hide IsChar, WholeChars, Behind, Before;
    var n := Behind(l, 0);
    WholeFirst(l);
    FirstChar(l, p);
    if p == n {
      BeforeChar(l, 0, n);
    } else {
      CharBefore(l[n..], p - n);
      BeforeShifted(l, n, p);
      SliceTwice(l, n, Before(l[n..], p - n), p);
    }
  }

  lemma BeforeShifted(l: Line, n: nat, p: nat)
    requires n < p <= |l| && IsChar(l[n..][Before(l[n..], p - n)..p - n])
    ensures Before(l, p) == n + Before(l[n..], p - n)
  {
    var rest := l[n..];
    var q := Before(rest, p - n);
    forall k | n + q < k < p ensures Continues(l[k]) { assert l[k] == rest[k - n]; }
    assert l[n + q] == rest[q] == rest[q..p - n][0];
    BeforeChar(l, n + q, p);
  }

  /** ... and so is the one behind it. */
  lemma CharBehind(l: Line, p: nat)
    requires WholeChars(l) && Boundary(l, p) && p < |l|
    ensures IsChar(l[p..Behind(l, p)])
  {
    hide *;
    WholeSplit(l, p);
    WholeFirst(l[p..]);
    BehindShifted(l, p);
    SliceFrom(l, p, Behind(l[p..], 0));
  }

  lemma BehindShifted(l: Line, p: nat)
    requires p < |l|
    ensures Behind(l, p) == p + Behind(l[p..], 0)
  {
    var rest := l[p..];
    var n := Behind(rest, 0);
    forall k | p < k < p + n ensures Continues(l[k]) { assert l[k] == rest[k - p]; }
    if p + n < |l| { assert l[p + n] == rest[n]; }
    BehindChar(l, p, p, p + n);
  }

  lemma SliceFrom(l: Line, p: nat, n: nat)
    requires p + n <= |l|
    ensures l[p..p + n] == l[p..][..n]
  {
  }

  /** Typing whole characters, splitting, joining, erasing and moving keep the text well formed; what Backspace and
      Delete take out of a line is exactly one character. */
  lemma EditsStayWellFormed(d: Doc, c: seq<Byte>)
    requires WellFormed(d) && IsChar(c)
    ensures WellFormed(Inserted(d, c)) && WellFormed(Broken(d)) && WellFormed(Backspaced(d)) && WellFormed(Deleted(d))
    ensures WellFormed(MovedLeft(d)) && WellFormed(MovedRight(d))
    ensures var l := d.text[d.row];
            && (d.col > 0 ==> IsChar(l[Before(l, d.col)..d.col]))
            && (d.col < |l| ==> IsChar(l[d.col..Behind(l, d.col)]))
  {
    hide Plain, IsChar, WholeChars, Behind, Before;
    var l := d.text[d.row];
    if d.col > 0 { CharBefore(l, d.col); }
    if d.col < |l| { CharBehind(l, d.col); }
    CharPlain(c);
    InsertSensible(d, c);
    InsertWhole(d, c);
    BreakSensible(d);
    BreakWhole(d);
    BackspaceSensible(d);
    BackspaceWhole(d);
    DeleteSensible(d);
    DeleteWhole(d);
  }

  /** A boundary of whole characters put before other whole characters. */
  lemma WholeBoundary(a: Line, b: Line)
    requires WholeChars(a) && WholeChars(b)
    ensures WholeChars(a + b) && Boundary(a + b, |a|)
  {
    WholeConcat(a, b);
    if b != [] { assert (a + b)[|a|] == b[0] == b[..Behind(b, 0)][0]; }
  }

  lemma OneChar(c: seq<Byte>)
    requires IsChar(c)
    ensures WholeChars(c)
  {
    CharFirst(c, []);
    assert c + [] == c;
  }

  lemma InsertWhole(d: Doc, c: seq<Byte>)
    requires WellFormed(d) && IsChar(c)
    ensures var e := Inserted(d, c);
            Boundary(e.text[e.row], e.col) && forall i | 0 <= i < |e.text| :: WholeChars(e.text[i])
  {
    hide Plain, WholeChars, IsChar;
    var l := d.text[d.row];
    WholeSplit(l, d.col);
    OneChar(c);
    WholeConcat(l[..d.col], c);
    WholeBoundary(l[..d.col] + c, l[d.col..]);
  }

  lemma BreakWhole(d: Doc)
    requires WellFormed(d)
    ensures var e := Broken(d); forall i | 0 <= i < |e.text| :: WholeChars(e.text[i])
  {
    hide Plain, WholeChars;
    WholeSplit(d.text[d.row], d.col);
  }

  lemma CutWhole(l: Line, p: nat, q: nat)
    requires p <= q && WholeChars(l) && Boundary(l, p) && Boundary(l, q)
    ensures WholeChars(l[..p] + l[q..]) && Boundary(l[..p] + l[q..], p)
  {
    hide WholeChars;
    WholeSplit(l, p);
    WholeSplit(l, q);
    WholeBoundary(l[..p], l[q..]);
  }

  lemma BackspaceWhole(d: Doc)
    requires WellFormed(d)
    ensures var e := Backspaced(d);
            e.row < |e.text| && Boundary(e.text[e.row], e.col) && forall i | 0 <= i < |e.text| :: WholeChars(e.text[i])
  {
    hide Plain, Boundary, WholeChars;
    var l := d.text[d.row];
    if d.col > 0 {
      CutWhole(l, Before(l, d.col), d.col);
    } else if d.row > 0 {
      WholeBoundary(d.text[d.row-1], l);
    }
  }

  lemma DeleteWhole(d: Doc)
    requires WellFormed(d)
    ensures var e := Deleted(d);
            e.row < |e.text| && Boundary(e.text[e.row], e.col) && forall i | 0 <= i < |e.text| :: WholeChars(e.text[i])
  {
    hide Plain, Boundary, WholeChars;
    var l := d.text[d.row];
    if d.col < |l| {
      CutWhole(l, d.col, Behind(l, d.col));
    } else if d.row + 1 < |d.text| {
      WholeBoundary(l, d.text[d.row+1]);
    }
  }

  // ----- what undoes what

  /** Backspace takes back a typed character whole. */
  lemma BackspaceUndoesChar(d: Doc, c: seq<Byte>)
    requires d.row < |d.text| && d.col <= |d.text[d.row]| && IsChar(c)
    ensures Backspaced(Inserted(d, c)) == d
  {
    hide Plain;
    var l := d.text[d.row];
    var m := l[..d.col] + c + l[d.col..];
    CharAt(l, d.col, c);
    BeforeChar(m, d.col, d.col + |c|);
    Retaken(d.text, d.row, m);
  }

  /** The right arrow goes back where the left one came from. */
  lemma RightUndoesLeft(d: Doc)
    requires d.row < |d.text| && d.col <= |d.text[d.row]| && Boundary(d.text[d.row], d.col)
    requires d.row > 0 || d.col > 0
    ensures MovedRight(MovedLeft(d)) == d
  {
    var l := d.text[d.row];
    if d.col > 0 { BehindChar(l, Before(l, d.col), Before(l, d.col), d.col); }
  }

  /** ... and the left one where the right one came from. */
  lemma LeftUndoesRight(d: Doc)
    requires d.row < |d.text| && d.col <= |d.text[d.row]| && Boundary(d.text[d.row], d.col)
    requires d.row + 1 < |d.text| || d.col < |d.text[d.row]|
    ensures MovedLeft(MovedRight(d)) == d
  {
    var l := d.text[d.row];
    if d.col < |l| { BeforeChar(l, d.col, Behind(l, d.col)); }
  }

  /** Backspace is the left arrow and then Delete. */
  lemma BackspaceIsDelete(d: Doc)
    requires d.row < |d.text| && d.col <= |d.text[d.row]| && Boundary(d.text[d.row], d.col)
    requires d.row > 0 || d.col > 0
    ensures Backspaced(d) == Deleted(MovedLeft(d))
  {
    var l := d.text[d.row];
    if d.col > 0 { BehindChar(l, Before(l, d.col), Before(l, d.col), d.col); }
  }

  /** A Unicode scalar value from the space on. */
  predicate Scalar(v: nat) {
    0x20 <= v < 0x11_0000 && !(0xD800 <= v < 0xE000)
  }

  /** Its UTF-8 form (RFC 3629, section 3). */
  function Utf8(v: nat): (c: seq<Byte>)
    requires Scalar(v)
  {
    if v < 0x80 then [v]
    else if v < 0x800 then [0xC0 + v / 64, 0x80 + v % 64]
    else if v < 0x1_0000 then [0xE0 + v / 4096, 0x80 + v / 64 % 64, 0x80 + v % 64]
    else [0xF0 + v / 262144, 0x80 + v / 4096 % 64, 0x80 + v / 64 % 64, 0x80 + v % 64]
  }

  /** Every scalar value is one character to the editor, and Backspace takes it back whole wherever it was typed. */
  lemma ScalarIsChar(v: nat, d: Doc)
    requires Scalar(v)
    ensures IsChar(Utf8(v))
    ensures d.row < |d.text| && d.col <= |d.text[d.row]| ==> Backspaced(Inserted(d, Utf8(v))) == d
  {
    assert IsChar(Utf8(v)) by { Leads(v); }
    if d.row < |d.text| && d.col <= |d.text[d.row]| { BackspaceUndoesChar(d, Utf8(v)); }
  }

  lemma Leads(v: nat)
    requires Scalar(v)
    ensures var c := Utf8(v);
            c[0] >= 0x20 && !Continues(c[0]) && |c| == Needs(c[0]) && forall k | 0 < k < |c| :: Continues(c[k])
  {
  }

  /** The editor goes on over exactly the bytes that follow the first one of some character. */
  lemma ContinuesMeans(b: Byte)
    ensures Continues(b) <==> exists v: nat, k: nat :: Scalar(v) && 0 < k < |Utf8(v)| && Utf8(v)[k] == b
  {
    if Continues(b) {
      var v: nat := b;
      assert Scalar(v) && Utf8(v)[1] == b;
    }
    if exists v: nat, k: nat :: Scalar(v) && 0 < k < |Utf8(v)| && Utf8(v)[k] == b {
      var v: nat, k: nat :| Scalar(v) && 0 < k < |Utf8(v)| && Utf8(v)[k] == b;
      Leads(v);
    }
  }

  lemma CharAt(l: Line, p: nat, c: seq<Byte>)
    requires p <= |l| && IsChar(c)
    ensures var m := l[..p] + c + l[p..];
            && !Continues(m[p]) && (forall k | p < k < p + |c| :: Continues(m[k])) && m[..p] + m[p + |c|..] == l
  {
    var m := l[..p] + c + l[p..];
    forall k | p < k < p + |c| ensures Continues(m[k]) { assert m[k] == c[k - p]; }
    assert m[p] == c[0];
  }

  lemma Retaken(text: seq<Line>, r: nat, m: Line)
    requires r < |text|
    ensures WithLine(WithLine(text, r, m), r, text[r]) == text
  {
  }

  /** ... and Enter. */
  lemma BackspaceUndoesBreak(d: Doc)
    requires d.row < |d.text| && d.col <= |d.text[d.row]|
    ensures Backspaced(Broken(d)) == d
  {
    var l := d.text[d.row];
    var e := Broken(d);
    assert e.text[e.row-1] + e.text[e.row] == l;
    assert Joined(e.text, e.row - 1) == d.text;
  }

  // ----- the flat form

  /** Every line followed by a NUL. */
  function Flat(text: seq<Line>): seq<Byte> {
    if text == [] then [] else text[0] + [NUL] + Flat(text[1..])
  }

  lemma {:induction false} FlatConcat(a: seq<Line>, b: seq<Line>)
    ensures Flat(a + b) == Flat(a) + Flat(b)
  {
    if a == [] {
      assert a + b == b;
    } else {
      assert (a + b)[1..] == a[1..] + b;
      FlatConcat(a[1..], b);
      Regroup(a[0] + [NUL], Flat(a[1..]), Flat(b));
    }
  }

  lemma Regroup(a: seq<Byte>, b: seq<Byte>, c: seq<Byte>)
    ensures a + (b + c) == (a + b) + c
  {
  }

  lemma FlatOne(l: Line, rest: seq<Line>)
    ensures Flat([l] + rest) == l + [NUL] + Flat(rest)
  {
    assert ([l] + rest)[1..] == rest;
  }

  lemma AroundLine(text: seq<Line>, r: nat)
    requires r < |text|
    ensures text == text[..r] + ([text[r]] + text[r+1..])
  {
  }

  /** A document around its line `r`. */
  lemma FlatAround(text: seq<Line>, r: nat)
    requires r < |text|
    ensures Flat(text) == Flat(text[..r]) + (text[r] + [NUL] + Flat(text[r+1..]))
  {
    hide Flat;
    AroundLine(text, r);
    FlatConcat(text[..r], [text[r]] + text[r+1..]);
    FlatOne(text[r], text[r+1..]);
  }

  /** Where line `r` begins. */
  function Offset(text: seq<Line>, r: nat): nat
    requires r <= |text|
  {
    |Flat(text[..r])|
  }

  /** The bytes of line `r`, and the NUL after them, in the flat form. */
  lemma LineInFlat(text: seq<Line>, r: nat)
    requires r < |text|
    ensures Offset(text, r) + |text[r]| < |Flat(text)|
    ensures Flat(text)[Offset(text, r)..Offset(text, r) + |text[r]|] == text[r]
    ensures Flat(text)[Offset(text, r) + |text[r]|] == NUL
    ensures Offset(text, r + 1) == Offset(text, r) + |text[r]| + 1
  {
    hide Flat;
    FlatAround(text, r);
    SliceInside(Flat(text[..r]), text[r], Flat(text[r+1..]));
    NextOffset(text, r);
  }

  lemma SliceInside(a: seq<Byte>, l: seq<Byte>, z: seq<Byte>)
    ensures var s := a + (l + [NUL] + z);
            s[|a|..|a| + |l|] == l && s[|a| + |l|] == NUL
  {
  }

  lemma NextOffset(text: seq<Line>, r: nat)
    requires r < |text|
    ensures Offset(text, r + 1) == Offset(text, r) + |text[r]| + 1
  {
    hide Flat;
    assert text[..r+1] == text[..r] + [text[r]];
    FlatConcat(text[..r], [text[r]]);
    assert [text[r]] == [text[r]] + [];
    FlatOne(text[r], []);
    NoLines();
  }

  lemma NoLines()
    ensures Flat([]) == []
  {
  }

  function Put(s: seq<Byte>, at: nat, b: Byte): seq<Byte>
    requires at <= |s|
  {
    s[..at] + [b] + s[at..]
  }

  function Cut(s: seq<Byte>, at: nat, n: nat): seq<Byte>
    requires at + n <= |s|
  {
    s[..at] + s[at+n..]
  }

  /** What follows the bytes of line `r`. */
  function Tail(text: seq<Line>, r: nat): seq<Byte>
    requires r < |text|
  {
    [NUL] + Flat(text[r+1..])
  }

  lemma FlatWith(text: seq<Line>, r: nat, l: Line)
    requires r < |text|
    ensures Flat(WithLine(text, r, l)) == Flat(text[..r]) + (l + Tail(text, r))
  {
    var t := WithLine(text, r, l);
    FlatAround(t, r);
    assert t[..r] == text[..r] && t[r+1..] == text[r+1..];
    hide Flat;
    Regroup(l, [NUL], Flat(text[r+1..]));
  }

  lemma FlatParts(text: seq<Line>, r: nat)
    requires r < |text|
    ensures Flat(text) == Flat(text[..r]) + (text[r] + Tail(text, r))
  {
    FlatWith(text, r, text[r]);
    assert WithLine(text, r, text[r]) == text;
    hide Flat;
  }

  /** One byte put into a line is one byte put into the flat form. */
  lemma FlatPut(text: seq<Line>, r: nat, c: nat, b: Byte)
    requires r < |text| && c <= |text[r]|
    ensures Offset(text, r) + c <= |Flat(text)|
    ensures Flat(WithLine(text, r, text[r][..c] + [b] + text[r][c..])) == Put(Flat(text), Offset(text, r) + c, b)
  {
    hide Flat, Tail, Put, WithLine;
    FlatParts(text, r);
    FlatWith(text, r, text[r][..c] + [b] + text[r][c..]);
    PutInside(Flat(text[..r]), text[r], Tail(text, r), c, b);
  }

  lemma PutInside(a: seq<Byte>, l: seq<Byte>, z: seq<Byte>, c: nat, b: Byte)
    requires c <= |l|
    ensures Put(a + (l + z), |a| + c, b) == a + (l[..c] + [b] + l[c..] + z)
  {
  }

  /** Cutting `n` bytes out of a line. */
  lemma FlatCut(text: seq<Line>, r: nat, c: nat, n: nat)
    requires r < |text| && c + n <= |text[r]|
    ensures Offset(text, r) + c + n <= |Flat(text)|
    ensures Flat(WithLine(text, r, text[r][..c] + text[r][c+n..])) == Cut(Flat(text), Offset(text, r) + c, n)
  {
    hide Flat, Tail, Cut, WithLine;
    FlatParts(text, r);
    FlatWith(text, r, text[r][..c] + text[r][c+n..]);
    CutInside(Flat(text[..r]), text[r], Tail(text, r), c, n);
  }

  lemma CutInside(a: seq<Byte>, l: seq<Byte>, z: seq<Byte>, c: nat, n: nat)
    requires c + n <= |l|
    ensures Cut(a + (l + z), |a| + c, n) == a + (l[..c] + l[c+n..] + z)
  {
  }

  lemma FlatTwo(text: seq<Line>, r: nat, x: Line, y: Line)
    requires r < |text|
    ensures Flat(text[..r] + [x, y] + text[r+1..]) == Flat(text[..r]) + (x + [NUL] + (y + Tail(text, r)))
  {
    hide Flat;
    var rest := text[r+1..];
    assert text[..r] + [x, y] + rest == text[..r] + ([x] + ([y] + rest));
    FlatConcat(text[..r], [x] + ([y] + rest));
    FlatOne(x, [y] + rest);
    FlatOne(y, rest);
    Regroup(y, [NUL], Flat(rest));
  }

  /** Splitting a line puts one NUL into the flat form. */
  lemma FlatBreak(text: seq<Line>, r: nat, c: nat)
    requires r < |text| && c <= |text[r]|
    ensures Offset(text, r) + c <= |Flat(text)|
    ensures Flat(text[..r] + [text[r][..c], text[r][c..]] + text[r+1..]) == Put(Flat(text), Offset(text, r) + c, NUL)
  {
    hide Flat, Tail, Put;
    FlatParts(text, r);
    FlatTwo(text, r, text[r][..c], text[r][c..]);
    BreakInside(Flat(text[..r]), text[r], Tail(text, r), c);
  }

  lemma BreakInside(a: seq<Byte>, l: seq<Byte>, z: seq<Byte>, c: nat)
    requires c <= |l|
    ensures Put(a + (l + z), |a| + c, NUL) == a + (l[..c] + [NUL] + (l[c..] + z))
  {
    PutInside(a, l, z, c, NUL);
    Regroup(l[..c] + [NUL], l[c..], z);
  }

  /** Joining two lines takes one NUL out: the inverse of splitting. */
  lemma FlatJoin(text: seq<Line>, r: nat)
    requires r + 1 < |text|
    ensures Offset(text, r) + |text[r]| + 1 <= |Flat(text)|
    ensures Flat(Joined(text, r)) == Cut(Flat(text), Offset(text, r) + |text[r]|, 1)
  {
    hide Flat, Cut, Put;
    var j, c := Joined(text, r), |text[r]|;
    JoinedParts(text, r);
    FlatBreak(j, r, c);
    LineInFlat(text, r);
    CutPut(Flat(j), Offset(j, r) + c);
  }

  lemma JoinedParts(text: seq<Line>, r: nat)
    requires r + 1 < |text|
    ensures var j, c := Joined(text, r), |text[r]|;
            && r < |j| && c <= |j[r]| && j[..r] + [j[r][..c], j[r][c..]] + j[r+1..] == text && j[..r] == text[..r]
  {
    var j := Joined(text, r);
    assert j[..r] == text[..r] && j[r+1..] == text[r+2..];
    assert j[r][..|text[r]|] == text[r] && j[r][|text[r]|..] == text[r+1];
  }

  lemma CutPut(s: seq<Byte>, at: nat)
    requires at <= |s|
    ensures Cut(Put(s, at, NUL), at, 1) == s
  {
  }
}
