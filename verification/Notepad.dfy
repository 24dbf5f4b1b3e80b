// The editor's document in its flat buffer (notatnik.cpp:490-889): every edit in place, refined by the
// same edit on lines.
module Notepad {
  import opened NoteText

  const CAPACITY: nat := 64 * 1024

  function Min(a: nat, b: nat): nat {
    if a < b then a else b
  }

  function Clamp(v: int, lo: int, hi: int): int {
    if v < lo then lo else if v > hi then hi else v
  }

  class Notepad {
    const doc: array<Byte>    // dokument
    var used: nat             // dokument_uzyte
    var lines: int            // liczba_linii
    var row: int              // cur_r
    var col: int              // cur_c
    ghost var text: seq<Line>

    /** `wyczysc_dokument`. */
    constructor ()
      ensures Valid() && View() == Doc([[]], 0, 0) && fresh(doc)
    {
      doc := new Byte[CAPACITY](_ => 0);
      used, lines, row, col, text := 1, 1, 0, 0, [[]];
      new;
      EmptyFlat();
      assert doc[..1] == [NUL];
    }

    /** The buffer holds the lines, each ended by a NUL, and the counters are right. */
    ghost predicate Stored()
      reads this, doc
    {
      && doc.Length == CAPACITY && used <= CAPACITY && |text| > 0
      && doc[..used] == Flat(text) && lines == |text|
    }

    ghost predicate Valid()
      reads this, doc
    {
      Stored() && 0 <= row && 0 <= col && Sensible(Doc(text, row, col))
    }

    ghost function View(): Doc
      reads this
      requires 0 <= row && 0 <= col
    {
      Doc(text, row, col)
    }

    // ----- moving bytes

    /** `przesun_dokument` (notatnik.cpp:490-503): moves `n` bytes, whichever way they overlap. */
    method Shift(to: nat, from: nat, n: nat) returns (ok: bool)
      requires doc.Length == CAPACITY && used <= CAPACITY
      modifies doc
      ensures ok <==> to <= CAPACITY && from + n <= used && to + n <= CAPACITY
      ensures ok ==> forall k | to <= k < to + n :: doc[k] == old(doc[from + (k - to)])
      ensures forall k | 0 <= k < CAPACITY && !(ok && to <= k < to + n) :: doc[k] == old(doc[k])
    {
      if to > CAPACITY || from > used || n > used - from || n > CAPACITY - to { return false; }
      ok := true;
      if n == 0 || to == from { return; }
      if to < from {
        var i := 0;
        while i < n
          invariant 0 <= i <= n
          invariant forall k | to <= k < to + i :: doc[k] == old(doc[from + (k - to)])
          invariant forall k | 0 <= k < CAPACITY && !(to <= k < to + i) :: doc[k] == old(doc[k])
        {
          doc[to + i] := doc[from + i];
          i := i + 1;
        }
      } else {
        var i := n;
        while i > 0
          invariant 0 <= i <= n
          invariant forall k | to + i <= k < to + n :: doc[k] == old(doc[from + (k - to)])
          invariant forall k | 0 <= k < CAPACITY && !(to + i <= k < to + n) :: doc[k] == old(doc[k])
        {
          doc[to + i - 1] := doc[from + i - 1];
          i := i - 1;
        }
      }
    }

    /** One byte goes in at `at`. */
    method PutByte(at: nat, b: Byte)
      requires doc.Length == CAPACITY && at <= used < CAPACITY
      modifies doc, this`used
      ensures used == old(used) + 1 && doc[..used] == Put(old(doc[..used]), at, b)
    {
      hide Put;
      var moved := Shift(at + 1, at, used - at);
      doc[at] := b;
      used := used + 1;
      assert forall k | 0 <= k < at :: doc[k] == old(doc[k]);
      assert forall k | at < k < used :: doc[k] == old(doc[k - 1]);
      PutMade(old(doc[..used]), doc[..used], at, b);
    }

    /** `n` bytes come out at `at`. */
    method CutBytes(at: nat, n: nat) returns (ok: bool)
      requires doc.Length == CAPACITY && used <= CAPACITY
      modifies doc, this`used
      ensures ok <==> at + n <= old(used)
      ensures ok ==> used == old(used) - n && doc[..used] == Cut(old(doc[..used]), at, n)
      ensures !ok ==> used == old(used) && doc[..] == old(doc[..])
    {
      hide Cut;
      if at + n > used { return false; }
      ok := Shift(at, at + n, used - (at + n));
      used := used - n;
      assert forall k | 0 <= k < at :: doc[k] == old(doc[k]);
      assert forall k | at <= k < used :: doc[k] == old(doc[k + n]);
      CutMade(old(doc[..used]), doc[..used], at, n);
    }

    // ----- finding places

    /** `dlugosc_limit` from `at`: the distance to the next NUL. */
    method ToNul(at: nat) returns (n: nat)
      requires Stored() && at <= used
      ensures at + n <= used && (forall k | at <= k < at + n :: doc[k] != NUL)
      ensures at + n < used ==> doc[at + n] == NUL
    {
      n := 0;
      while at + n < used && doc[at + n] != NUL
        invariant at + n <= used && forall k | at <= k < at + n :: doc[k] != NUL
      {
        n := n + 1;
      }
    }

    /** `offset_linii` (notatnik.cpp:505-515). */
    method LineOffset(r: int) returns (p: nat)
      requires Stored()
      requires forall i | 0 <= i < |text| :: Plain(text[i])
      ensures p == if 0 <= r < |text| then Offset(text, r) else used
      ensures 0 <= r < |text| ==> p + |text[r]| < used
    {
      hide Flat, Plain;
      LineInFlat(text, 0);
      if r < 0 || r >= lines || used == 0 || used > CAPACITY { return used; }
      p := 0;
      var line := 0;
      NoLines();
      assert text[..0] == [];
      while line < r
        invariant 0 <= line <= r && p == Offset(text, line)
      {
        LineInFlat(text, line);
        var n := ToNul(p);
        LineEnds(doc[..used], text, line, p, n);
        p := p + n;
        if p >= used { return used; }
        p := p + 1;
        line := line + 1;
      }
      LineInFlat(text, r);
      p := Min(p, used);
    }

    /** `dlugosc_linii`. */
    method LineLength(r: int) returns (n: nat)
      requires Stored() && forall i | 0 <= i < |text| :: Plain(text[i])
      ensures n == if 0 <= r < |text| then |text[r]| else 0
    {
      hide Flat, Plain;
      var p := LineOffset(r);
      n := 0;
      if p >= used { return; }
      LineInFlat(text, r);
      var length := ToNul(p);
      LineEnds(doc[..used], text, r, p, length);
      if length < used - p { n := length; }
    }

    /** `normalizuj_kursor` (notatnik.cpp:682-713). */
    method Normalise()
      requires Valid()
      modifies this`lines, this`row, this`col
      ensures Valid() && View() == Snapped(old(View()))
    {
      hide Flat, Plain;
      LongEnough(text);
      lines := Clamp(lines, 1, CAPACITY);
      row := Clamp(row, 0, lines - 1);
      var n := LineLength(row);
      col := Clamp(col, 0, n);
      col := SnapColumn(col, n);
    }

    /** `utf8_przytnij_do_granicy` on the current line. */
    method SnapColumn(at: nat, n: nat) returns (p: nat)
      requires Valid() && at <= n == |text[row]|
      ensures p == Snap(text[row], at)
    {
      hide Flat, Plain;
      var line := LineOffset(row);
      NoNulInside(doc[..used], text, row, line);
      if at <= 0 { return 0; }
      if at >= n { return n; }
      p := at;
      while p > 0 && Continues(doc[line + p])
        invariant 0 <= p <= at < n && Snap1(text[row], at) == Snap1(text[row], p)
      {
        p := p - 1;
      }
    }

    /** `utf8_poprzedni_start` on the current line. */
    method PreviousStart(at: nat) returns (p: nat)
      requires Valid() && 0 < at <= |text[row]|
      ensures p == Before(text[row], at)
    {
      hide Flat, Plain;
      var line := LineOffset(row);
      NoNulInside(doc[..used], text, row, line);
      p := at - 1;
      while p > 0 && Continues(doc[line + p])
        invariant 0 <= p < at && Before(text[row], at) == Before(text[row], p + 1)
      {
        p := p - 1;
      }
    }

    /** `utf8_nastepny_start` on the current line. */
    method NextStart(at: nat) returns (p: nat)
      requires Valid() && at < |text[row]|
      ensures p == Behind(text[row], at)
    {
      hide Flat, Plain;
      var line := LineOffset(row);
      var n := LineLength(row);
      NoNulInside(doc[..used], text, row, line);
      p := at + 1;
      while p < n && Continues(doc[line + p])
        invariant at < p <= n && Behind(text[row], at) == Behind(text[row], p - 1)
      {
        p := p + 1;
      }
    }

    // ----- editing

    /** `wstaw_bajt` (notatnik.cpp:719-745): room for the whole character must be left, not only for this byte. */
    method InsertByte(b: Byte) returns (ok: bool)
      requires Valid() && b >= 0x20
      modifies doc, this`used, this`lines, this`row, this`col, this`text
      ensures Valid()
      ensures ok <==> Needs(b) <= CAPACITY - old(used)
      ensures View() == if ok then Inserted(Snapped(old(View())), [b]) else Snapped(old(View()))
      ensures used == if ok then old(used) + 1 else old(used)
    {
      hide Flat;
      Normalise();
      ghost var d := View();
      if used >= CAPACITY { return false; }
      if Needs(b) > CAPACITY - used { return false; }
      var line := LineOffset(row);
      FlatPut(text, row, col, b);
      InsertSensible(d, [b]);
      PutByte(line + col, b);
      text := WithLine(text, row, text[row][..col] + [b] + text[row][col..]);
      col := col + 1;
      ok := true;
    }

    /** The bytes of one typed character arrive one by one (notatnik.cpp:2772-2782). With no continuation byte at the
        cursor, as in any well-formed text, they stay together. */
    method TypeChar(c: seq<Byte>)
      requires Valid() && IsChar(c)
      modifies doc, this`used, this`lines, this`row, this`col, this`text
      ensures Valid() && View() == TypedOn(old(View()), c, CAPACITY - old(used))
      ensures BeforeWhole(Snapped(old(View()))) ==> View() == Typed(Snapped(old(View())), c, CAPACITY - old(used))
    {
      hide Plain, Flat, Inserted, TypedOn, Typed, BeforeWhole;
      ghost var d: Doc, free: nat := View(), CAPACITY - used;
      assert c[0..] == c;
      var i := 0;
      while i < |c|
        invariant 0 <= i <= |c| && Valid()
        invariant TypedOn(View(), c[i..], CAPACITY - used) == TypedOn(d, c, free)
      {
        TypedNext(View(), c, i, CAPACITY - used);
        var ok := InsertByte(c[i]);
        i := i + 1;
      }
      assert c[i..] == [];
      TypedNothing(View(), CAPACITY - used);
      if BeforeWhole(Snapped(d)) { TypedTogether(d, c, free); }
    }

    /** Bytes c .. c+n-1 of the current line come out. */
    method CutInLine(c: nat, n: nat) returns (ok: bool)
      requires Valid() && c + n <= |text[row]| && n > 0
      modifies doc, this`used, this`text
      ensures ok && Stored() && text == WithLine(old(text), row, old(text)[row][..c] + old(text)[row][c+n..])
    {
      hide Flat, Plain;
      var line := LineOffset(row);
      FlatCut(text, row, c, n);
      ok := CutBytes(line + c, n);
      text := WithLine(text, row, text[row][..c] + text[row][c+n..]);
    }

    /** The NUL between lines r and r+1 comes out. */
    method JoinAt(r: nat, separator: nat) returns (ok: bool)
      requires Valid() && r + 1 < |text| && separator == Offset(text, r) + |text[r]|
      modifies doc, this`used, this`text, this`lines
      ensures ok && Stored() && text == Joined(old(text), r)
    {
      hide Flat, Plain;
      FlatJoin(text, r);
      ok := CutBytes(separator, 1);
      text := Joined(text, r);
      lines := lines - 1;
    }

    /** Backspace at the start of a line. */
    method JoinUp() returns (ok: bool)
      requires Valid() && row > 0 && col == 0
      modifies doc, this`used, this`lines, this`row, this`col, this`text
      ensures Valid() && View() == Backspaced(old(View()))
      ensures ok
    {
      hide Flat, Plain, Joined;
      BackspaceSensible(View());
      var before := LineLength(row - 1);
      var here := LineOffset(row);
      LineInFlat(text, row - 1);
      ok := JoinAt(row - 1, here - 1);
      row := row - 1;
      col := before;
    }

    /** `usun_poprzedni_znak` (notatnik.cpp:747-784). */
    method Backspace() returns (ok: bool)
      requires Valid()
      modifies doc, this`used, this`lines, this`row, this`col, this`text
      ensures Valid() && View() == Backspaced(Snapped(old(View())))
      ensures ok <==> old(row) > 0 || Snapped(old(View())).col > 0
    {
      hide Flat, Plain;
      Normalise();
      BackspaceSensible(View());
      if col > 0 {
        var start := PreviousStart(col);
        ok := CutInLine(start, col - start);
        col := start;
        return;
      }
      if row <= 0 { return false; }
      ok := JoinUp();
    }

    /** `usun_nastepny_znak` (notatnik.cpp:786-814). */
    method Delete() returns (ok: bool)
      requires Valid()
      modifies doc, this`used, this`lines, this`row, this`col, this`text
      ensures Valid() && View() == Deleted(Snapped(old(View())))
      ensures ok <==> old(row) + 1 < |old(text)| || Snapped(old(View())).col < |old(text)[old(row)]|
    {
      hide Flat, Plain;
      Normalise();
      DeleteSensible(View());
      var n := LineLength(row);
      if col < n {
        var end := NextStart(col);
        ok := CutInLine(col, end - col);
        return;
      }
      if row + 1 >= lines { return false; }
      var line := LineOffset(row);
      ok := JoinAt(row, line + n);
    }

    /** `podziel_linie` (notatnik.cpp:816-831). */
    method Break() returns (ok: bool)
      requires Valid()
      modifies doc, this`used, this`lines, this`row, this`col, this`text
      ensures Valid()
      ensures ok <==> old(used) < CAPACITY
      ensures View() == if ok then Broken(Snapped(old(View()))) else Snapped(old(View()))
      ensures used == if ok then old(used) + 1 else old(used)
    {
      hide Flat, Plain;
      Normalise();
      ghost var d := View();
      if used >= CAPACITY { return false; }
      var line := LineOffset(row);
      BreakSensible(d);
      FlatBreak(text, row, col);
      PutByte(line + col, NUL);
      text := Broken(d).text;
      lines := lines + 1;
      row := row + 1;
      col := 0;
      ok := true;
    }

    /** `kursor_lewo` (notatnik.cpp:837-860). */
    method Left()
      requires Valid()
      modifies this`lines, this`row, this`col
      ensures Valid() && View() == MovedLeft(Snapped(old(View())))
    {
      hide Flat, Plain;
      Normalise();
      if col > 0 {
        col := PreviousStart(col);
        return;
      }
      if row > 0 {
        row := row - 1;
        col := LineLength(row);
      }
    }

    /** `kursor_prawo` (notatnik.cpp:862-889). */
    method Right()
      requires Valid()
      modifies this`lines, this`row, this`col
      ensures Valid() && View() == MovedRight(Snapped(old(View())))
    {
      hide Flat, Plain;
      Normalise();
      var n := LineLength(row);
      if col < n {
        col := NextStart(col);
        return;
      }
      if row + 1 < lines {
        row := row + 1;
        col := 0;
      }
    }
  }

  lemma PutMade(before: seq<Byte>, after: seq<Byte>, at: nat, b: Byte)
    requires at <= |before| && |after| == |before| + 1 && after[at] == b
    requires forall k | 0 <= k < at :: after[k] == before[k]
    requires forall k | at < k < |after| :: after[k] == before[k - 1]
    ensures after == Put(before, at, b)
  {
  }

  lemma CutMade(before: seq<Byte>, after: seq<Byte>, at: nat, n: nat)
    requires at + n <= |before| && |after| == |before| - n
    requires forall k | 0 <= k < at :: after[k] == before[k]
    requires forall k | at <= k < |after| :: after[k] == before[k + n]
    ensures after == Cut(before, at, n)
  {
  }

  /** Bytes typed one after the other: each is inserted at the boundary before the cursor, if what it begins fits. */
  function TypedOn(d: Doc, c: seq<Byte>, free: int): Doc
    requires d.row < |d.text| && d.col <= |d.text[d.row]|
    decreases |c|
  {
    if c == [] then d
    else if Needs(c[0]) <= free then TypedOn(Inserted(Snapped(d), [c[0]]), c[1..], free - 1)
    else TypedOn(Snapped(d), c[1..], free)
  }

  /** The byte at the cursor, if there is one, begins a character. */
  predicate BeforeWhole(d: Doc) {
    && d.row < |d.text| && d.col <= |d.text[d.row]|
    && (d.col == |d.text[d.row]| || !Continues(d.text[d.row][d.col]))
  }

  /** What of a character's first `i` bytes is accepted with `free` bytes left: without room for all of it the
      first byte is refused, but the bytes after it are judged on their own. */
  function Taken(c: seq<Byte>, i: nat, free: nat): seq<Byte>
    requires i <= |c|
  {
    if |c| <= free then c[..i] else if i == 0 then [] else c[1..1 + Min(i - 1, free)]
  }

  function Typed(d: Doc, c: seq<Byte>, free: nat): Doc
    requires d.row < |d.text| && d.col <= |d.text[d.row]|
  {
    Inserted(d, Taken(c, |c|, free))
  }

  lemma TypedNothing(d: Doc, free: int)
    requires d.row < |d.text| && d.col <= |d.text[d.row]|
    ensures TypedOn(d, [], free) == d
  {
  }

  lemma TypedNext(d: Doc, c: seq<Byte>, i: nat, free: int)
    requires d.row < |d.text| && d.col <= |d.text[d.row]| && i < |c| && IsChar(c)
    ensures c[i] >= 0x20
    ensures var e := Inserted(Snapped(d), [c[i]]);
            && e.row < |e.text| && e.col <= |e.text[e.row]|
            && TypedOn(d, c[i..], free) == if Needs(c[i]) <= free then TypedOn(e, c[i+1..], free - 1)
                                           else TypedOn(Snapped(d), c[i+1..], free)
  {
    assert c[i..][0] == c[i] && c[i..][1..] == c[i+1..];
  }

  lemma TypedTogether(d: Doc, c: seq<Byte>, free: nat)
    requires d.row < |d.text| && d.col <= |d.text[d.row]| && IsChar(c) && BeforeWhole(Snapped(d))
    ensures TypedOn(d, c, free) == Typed(Snapped(d), c, free)
  {
    hide TypedOn, Inserted;
    var e := Snapped(d);
    assert c[0..] == c;
    NothingTyped(e);
    TypedNext(d, c, 0, free);
    TypedNext(e, c, 0, free);
    TypedFrom(e, c, 0, free);
  }

  lemma {:induction false} TypedFrom(d: Doc, c: seq<Byte>, i: nat, free: nat)
    requires BeforeWhole(d) && IsChar(c) && i <= |c|
    ensures var e := Inserted(d, Taken(c, i, free));
            && e.row < |e.text| && e.col <= |e.text[e.row]|
            && TypedOn(e, c[i..], free - |Taken(c, i, free)|) == Typed(d, c, free)
    decreases |c| - i
  {
    hide TypedOn, Inserted, IsChar, Taken;
    StillBetween(d, Taken(c, i, free));
    var e := Inserted(d, Taken(c, i, free));
    if i == |c| {
      assert c[i..] == [];
      TypedNothing(e, free - |Taken(c, i, free)|);
    } else {
      TypedNext(e, c, i, free - |Taken(c, i, free)|);
      InsertMore(d, Taken(c, i, free), c[i]);
      TakesNext(c, i, free);
      TypedFrom(d, c, i + 1, free);
    }
  }

  lemma TakesNext(c: seq<Byte>, i: nat, free: nat)
    requires IsChar(c) && i < |c|
    ensures |Taken(c, i, free)| <= free
    ensures Taken(c, i + 1, free) == if Needs(c[i]) <= free - |Taken(c, i, free)| then Taken(c, i, free) + [c[i]]
                                     else Taken(c, i, free)
    ensures c[i] >= 0x20
  {
  }

  lemma NothingTyped(d: Doc)
    requires d.row < |d.text| && d.col <= |d.text[d.row]|
    ensures Inserted(d, []) == d
  {
    assert d.text[d.row][..d.col] + [] + d.text[d.row][d.col..] == d.text[d.row];
  }

  lemma InsertMore(d: Doc, a: seq<Byte>, b: Byte)
    requires d.row < |d.text| && d.col <= |d.text[d.row]|
    ensures var e := Inserted(d, a);
            e.row < |e.text| && e.col <= |e.text[e.row]| && Inserted(e, [b]) == Inserted(d, a + [b])
  {
    var l := d.text[d.row];
    var m := l[..d.col] + a + l[d.col..];
    assert m[..d.col + |a|] + [b] + m[d.col + |a|..] == l[..d.col] + (a + [b]) + l[d.col..];
  }

  lemma StillBetween(d: Doc, a: seq<Byte>)
    requires BeforeWhole(d)
    ensures var e := Inserted(d, a); BeforeWhole(e) && Snapped(e) == e
  {
    hide Plain;
    var l := d.text[d.row];
    var m := l[..d.col] + a + l[d.col..];
    if d.col < |l| { assert m[d.col + |a|] == l[d.col]; }
  }

  /** A character is typed whole or not at all exactly when the buffer has room for it or not one byte is left;
      otherwise its last bytes go in without their first (notatnik.cpp:727-733 checks the first byte's need only). */
  lemma WholeOrNothing(d: Doc, c: seq<Byte>)
    requires d.row < |d.text| && d.col <= |d.text[d.row]| && IsChar(c) && |Flat(d.text)| <= CAPACITY
    ensures var free := CAPACITY - |Flat(d.text)|;
            (Typed(d, c, free) == Inserted(d, c) || Typed(d, c, free) == d) <==> |c| <= free || free == 0
  {
    hide Plain, Flat;
    var free := CAPACITY - |Flat(d.text)|;
    NothingTyped(d);
    if |c| <= free {
      assert c[..|c|] == c;
    } else if free > 0 {
      assert |Taken(c, |c|, free)| == free;
    }
  }

  lemma {:induction false} LettersWhole(n: nat)
    ensures WholeChars(seq(n, _ => 97)) && Plain(seq(n, _ => 97))
  {
    var l: Line := seq(n, _ => 97);
    if n > 0 {
      LettersWhole(n - 1);
      BehindChar(l, 0, 0, 1);
      assert l[1..] == seq(n - 1, _ => 97);
    }
  }

  /** In well-formed text what is typed stays together. */
  lemma WellFormedBefore(d: Doc)
    requires WellFormed(d)
    ensures BeforeWhole(d) && Snapped(d) == d
  {
    hide Plain;
    var l := d.text[d.row];
    if d.col < |l| {
      CharBehind(l, d.col);
      assert l[d.col..Behind(l, d.col)][0] == l[d.col];
    }
  }

  const LETTER: seq<Byte> := [0xC5, 0x82]

  /** One line that leaves a single byte of the buffer, the cursor at its start. */
  function AlmostFull(): Doc {
    Doc([seq(CAPACITY - 2, _ => 97)], 0, 0)
  }

  /** With one byte left a typed two-byte letter leaves its second byte alone at the start of the line: the text was
      well formed, and is no longer. */
  lemma LimitCutsLetter()
    ensures var d := AlmostFull();
            WellFormed(d) && CAPACITY - |Flat(d.text)| == 1 && BeforeWhole(d) && d == Snapped(d)
    ensures IsChar(LETTER)
    ensures var e := Typed(AlmostFull(), LETTER, 1);
            e.text[0] == [0x82] + AlmostFull().text[0] && !WellFormed(e)
  {
    LettersWhole(CAPACITY - 2);
    var d := AlmostFull();
    assert d.text[1..] == [];
    NoLines();
    assert Flat(d.text) == d.text[0] + [NUL] + [];
    assert Taken(LETTER, 2, 1) == [0x82];
    var l := d.text[0];
    assert l[..0] + [0x82] + l[0..] == [0x82] + l;
  }

  lemma LongEnough(text: seq<Line>)
    ensures |text| <= |Flat(text)|
  {
    if text != [] { LongEnough(text[1..]); }
  }

  lemma EmptyFlat()
    ensures Flat([[]]) == [NUL]
  {
  }

  /** A plain line ends at the first NUL after its start. */
  lemma LineEnds(flat: seq<Byte>, text: seq<Line>, r: nat, p: nat, n: nat)
    requires flat == Flat(text) && r < |text| && p == Offset(text, r) && Plain(text[r])
    requires p + n <= |flat| && (forall k | p <= k < p + n :: flat[k] != NUL) && (p + n < |flat| ==> flat[p + n] == NUL)
    ensures n == |text[r]| && p + n < |flat|
  {
    hide Flat;
    LineInFlat(text, r);
    NoNulInside(flat, text, r, p);
  }

  lemma NoNulInside(flat: seq<Byte>, text: seq<Line>, r: nat, p: nat)
    requires flat == Flat(text) && r < |text| && p == Offset(text, r) && Plain(text[r])
    ensures p + |text[r]| < |flat| && forall k | p <= k < p + |text[r]| :: flat[k] == text[r][k - p] != NUL
  {
    hide Flat;
    LineInFlat(text, r);
    forall k | p <= k < p + |text[r]| ensures flat[k] == text[r][k - p] != NUL {
      assert flat[p..p + |text[r]|][k - p] == flat[k];
      assert text[r][k - p] in text[r];
    }
  }
}
