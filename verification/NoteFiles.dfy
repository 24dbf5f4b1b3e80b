// Saving and opening in the editor's own buffer (notatnik.cpp:1457-1544, 1550-1643).
module NoteFiles {
  import N = Notepad
  import opened NoteText

  const MAX_FILE: nat := N.CAPACITY - 1

  // ----- what a document is as a file, and a file as a document

  /** The lines with an LF between any two. */
  function FileOf(text: seq<Line>): seq<Byte>
    requires text != []
  {
    if |text| == 1 then text[0] else text[0] + [LF] + FileOf(text[1..])
  }

  /** How many bytes the line break at the front takes: CR, LF or both. */
  function BreakLength(file: seq<Byte>): (n: nat)
    requires file != []
    ensures n <= 2 && n <= |file|
  {
    if file[0] == CR then (if |file| > 1 && file[1] == LF then 2 else 1)
    else if file[0] == LF then 1
    else 0
  }

  function LinesOf(file: seq<Byte>): (text: seq<Line>)
    ensures text != []
  {
    if file == [] then [[]]
    else if BreakLength(file) > 0 then [[]] + LinesOf(file[BreakLength(file)..])
    else
      var rest := LinesOf(file[1..]);
      [[file[0]] + rest[0]] + rest[1..]
  }

  /** The file with every line break written as LF. */
  function Unified(file: seq<Byte>): seq<Byte> {
    if file == [] then []
    else if BreakLength(file) > 0 then [LF] + Unified(file[BreakLength(file)..])
    else [file[0]] + Unified(file[1..])
  }

  // ----- round trips

  lemma OneMore(b: Byte, text: seq<Line>)
    requires text != []
    ensures FileOf([[b] + text[0]] + text[1..]) == [b] + FileOf(text)
  {
    var t := [[b] + text[0]] + text[1..];
    assert t[1..] == text[1..];
    if |text| > 1 {
      assert [b] + text[0] + [LF] + FileOf(text[1..]) == [b] + (text[0] + [LF] + FileOf(text[1..]));
    }
  }

  lemma EmptyFirst(text: seq<Line>)
    requires text != []
    ensures FileOf([[]] + text) == [LF] + FileOf(text)
  {
    assert ([[]] + text)[1..] == text;
    assert [] + [LF] + FileOf(text) == [LF] + FileOf(text);
  }

  /** Opening a file and saving it writes the file with its line breaks made LF, and nothing else changed. */
  lemma {:induction false} SaveOpened(file: seq<Byte>)
    ensures FileOf(LinesOf(file)) == Unified(file)
  {
    hide FileOf;
    if file == [] {
      EmptyFile();
    } else if BreakLength(file) > 0 {
      SaveOpened(file[BreakLength(file)..]);
      EmptyFirst(LinesOf(file[BreakLength(file)..]));
    } else {
      SaveOpened(file[1..]);
      OneMore(file[0], LinesOf(file[1..]));
    }
  }

  lemma EmptyFile()
    ensures FileOf([[]]) == []
  {
  }

  /** Line by line: what comes before the first break is the first line. */
  lemma {:induction false} FirstLine(line: Line, rest: seq<Byte>)
    requires CR !in line && LF !in line
    ensures LinesOf(line + rest) == [line + LinesOf(rest)[0]] + LinesOf(rest)[1..]
  {
    if line == [] {
      assert line + rest == rest && line + LinesOf(rest)[0] == LinesOf(rest)[0];
    } else {
      assert (line + rest)[1..] == line[1..] + rest;
      FirstLine(line[1..], rest);
      assert [line[0]] + (line[1..] + LinesOf(rest)[0]) == line + LinesOf(rest)[0];
    }
  }

  lemma BreakFirst(rest: seq<Byte>)
    ensures LinesOf([LF] + rest) == [[]] + LinesOf(rest)
  {
    assert ([LF] + rest)[1..] == rest;
  }

  /** Opening a saved document gives back its lines. */
  lemma {:induction false} OpenSaved(text: seq<Line>)
    requires text != [] && forall i | 0 <= i < |text| :: Plain(text[i])
    ensures LinesOf(FileOf(text)) == text
  {
    hide LinesOf;
    var first := text[0];
    assert Plain(first);
    if |text| == 1 {
      FirstLine(first, []);
      NoFile();
      assert first + [] == first;
    } else {
      OpenSaved(text[1..]);
      var rest := FileOf(text[1..]);
      assert first + [LF] + rest == first + ([LF] + rest);
      FirstLine(first, [LF] + rest);
      BreakFirst(rest);
      assert first + [] == first;
      assert ([[]] + text[1..])[1..] == text[1..];
    }
  }

  lemma NoFile()
    ensures LinesOf([]) == [[]]
  {
  }

  /** A file keeps its bytes when opened and saved exactly when it has no CR. */
  lemma {:induction false} UnifiedSame(file: seq<Byte>)
    ensures Unified(file) == file <==> CR !in file
  {
    if file != [] {
      var n := BreakLength(file);
      if n > 0 {
        UnifiedSame(file[n..]);
        if file[0] == LF {
          assert file == [LF] + file[1..];
        }
      } else {
        UnifiedSame(file[1..]);
        assert file == [file[0]] + file[1..];
      }
    }
  }

  lemma {:induction false} UnifiedHasNoReturn(file: seq<Byte>)
    ensures CR !in Unified(file)
  {
    if file != [] {
      var n := BreakLength(file);
      UnifiedHasNoReturn(file[if n > 0 then n else 1..]);
    }
  }

  /** Saving what was opened is stable: opened again, it is the same document, and saved again, the same file. */
  lemma OpenSaveOpen(file: seq<Byte>)
    ensures Unified(Unified(file)) == Unified(file)
    ensures NUL !in file ==> LinesOf(Unified(file)) == LinesOf(file)
  {
    UnifiedHasNoReturn(file);
    UnifiedSame(Unified(file));
    if NUL !in file {
      LinesPlain(file);
      OpenSaved(LinesOf(file));
      SaveOpened(file);
    }
  }

  lemma {:induction false} LinesPlain(file: seq<Byte>)
    requires NUL !in file
    ensures forall i | 0 <= i < |LinesOf(file)| :: Plain(LinesOf(file)[i])
  {
    if file != [] {
      var n := BreakLength(file);
      if n > 0 {
        LinesPlain(file[n..]);
      } else {
        LinesPlain(file[1..]);
        var rest := LinesOf(file[1..]);
        PlainConcat([file[0]], rest[0]);
      }
    }
  }

  // ----- what a line break is

  /** The lines with the given breaks between them. */
  function Written(text: seq<Line>, breaks: seq<seq<Byte>>): seq<Byte>
    requires |text| == |breaks| + 1
  {
    if breaks == [] then text[0] else text[0] + (breaks[0] + Written(text[1..], breaks[1..]))
  }

  /** Lines without 0, 10 or 13 in them, and between any two LF, CR LF or CR. */
  ghost predicate Breaks(text: seq<Line>, breaks: seq<seq<Byte>>) {
    && |text| == |breaks| + 1
    && (forall i | 0 <= i < |text| :: 0 !in text[i] && 10 !in text[i] && 13 !in text[i])
    && (forall i | 0 <= i < |breaks| :: breaks[i] == [10] || breaks[i] == [13, 10] || breaks[i] == [13])
  }

  /** A lone CR, an empty line and a lone LF: in the file the two breaks cannot be told from one CR LF. */
  ghost predicate Ambiguous(text: seq<Line>, breaks: seq<seq<Byte>>, i: nat)
    requires |text| == |breaks| + 1
  {
    i + 1 < |breaks| && breaks[i] == [13] && text[i+1] == [] && breaks[i+1] == [10]
  }

  ghost predicate Unmistakable(text: seq<Line>, breaks: seq<seq<Byte>>) {
    Breaks(text, breaks) && forall i: nat :: !Ambiguous(text, breaks, i)
  }

  /** However its lines are broken, a file is opened as those lines, exactly when no CR and LF of two breaks meet. */
  lemma {:induction false} AnyBreaks(text: seq<Line>, breaks: seq<seq<Byte>>)
    requires Breaks(text, breaks)
    ensures LinesOf(Written(text, breaks)) == text <==> forall i: nat :: !Ambiguous(text, breaks, i)
    ensures |LinesOf(Written(text, breaks))| <= |text|
    decreases |text|
  {
    hide LinesOf;
    var first := text[0];
    assert first + [] == first;
    if breaks == [] {
      FirstLine(first, []);
      NoFile();
    } else {
      var rest := Written(text[1..], breaks[1..]);
      FirstLine(first, breaks[0] + rest);
      if Ambiguous(text, breaks, 0) {
        var later := Written(text[2..], breaks[2..]);
        assert rest == [] + ([10] + later) by { TwoOn(text, breaks); }
        assert breaks[0] + rest == [13, 10] + later;
        BreakTaken([13, 10], later);
        AnyBreaks(text[2..], breaks[2..]);
      } else {
        StartsWithFeed(text[1..], breaks[1..]);
        BreakTaken(breaks[0], rest);
        AnyBreaks(text[1..], breaks[1..]);
        AmbiguousLater(text, breaks);
        OneOff(first, text, LinesOf(rest));
      }
    }
  }

  lemma TwoOn(text: seq<Line>, breaks: seq<seq<Byte>>)
    requires Breaks(text, breaks) && Ambiguous(text, breaks, 0)
    ensures Breaks(text[2..], breaks[2..])
    ensures Written(text[1..], breaks[1..]) == [] + ([10] + Written(text[2..], breaks[2..]))
  {
    assert text[1..][1..] == text[2..] && breaks[1..][1..] == breaks[2..];
  }

  /** A break is taken whole, unless it is a CR with an LF behind it. */
  lemma BreakTaken(b: seq<Byte>, rest: seq<Byte>)
    requires b == [10] || b == [13, 10] || (b == [13] && !(rest != [] && rest[0] == 10))
    ensures LinesOf(b + rest) == [[]] + LinesOf(rest)
  {
    var file := b + rest;
    assert file[|b|..] == rest;
    assert BreakLength(file) == |b|;
  }

  lemma StartsWithFeed(text: seq<Line>, breaks: seq<seq<Byte>>)
    requires Breaks(text, breaks)
    ensures var w := Written(text, breaks);
            w != [] && w[0] == 10 ==> text[0] == [] && |breaks| > 0 && breaks[0] == [10]
  {
    var w := Written(text, breaks);
    if text[0] != [] {
      assert w[0] == text[0][0] && text[0][0] in text[0];
    } else if breaks != [] {
      assert w[0] == breaks[0][0];
    }
  }

  lemma AmbiguousLater(text: seq<Line>, breaks: seq<seq<Byte>>)
    requires |text| == |breaks| + 1 && breaks != []
    ensures (exists i: nat :: Ambiguous(text, breaks, i))
            <==> Ambiguous(text, breaks, 0) || exists i: nat :: Ambiguous(text[1..], breaks[1..], i)
  {
    if exists i: nat :: Ambiguous(text, breaks, i) {
      var i: nat :| Ambiguous(text, breaks, i);
      if i > 0 { assert Ambiguous(text[1..], breaks[1..], i - 1); }
    }
    if exists i: nat :: Ambiguous(text[1..], breaks[1..], i) {
      var i: nat :| Ambiguous(text[1..], breaks[1..], i);
      assert Ambiguous(text, breaks, i + 1);
    }
  }

  lemma OneOff(first: Line, text: seq<Line>, rest: seq<Line>)
    requires text != [] && first == text[0]
    ensures [first + []] + rest == text <==> rest == text[1..]
    ensures ([[]] + rest)[0] == [] && ([[]] + rest)[1..] == rest
  {
    assert first + [] == first;
    assert ([first] + rest)[1..] == rest;
    assert text == [text[0]] + text[1..];
  }

  /** Every text file is its lines with such breaks between them, so there is one way to open it. */
  lemma {:induction false} EveryFile(file: seq<Byte>) returns (breaks: seq<seq<Byte>>)
    requires 0 !in file
    ensures Breaks(LinesOf(file), breaks) && Written(LinesOf(file), breaks) == file
    ensures forall i: nat :: !Ambiguous(LinesOf(file), breaks, i)
  {
    hide Ambiguous, Breaks, Written, LinesOf;
    if file == [] {
      breaks := [];
      NoFile();
      OneLine([]);
    } else {
      var n := BreakLength(file);
      LinesStep(file);
      if n > 0 {
        breaks := EveryFile(file[n..]);
        BreakBefore(file[..n], LinesOf(file[n..]), breaks);
        assert file[..n] + file[n..] == file;
        breaks := [file[..n]] + breaks;
      } else {
        breaks := EveryFile(file[1..]);
        LongerFirst(file[0], LinesOf(file[1..]), breaks);
        assert [file[0]] + file[1..] == file;
      }
    }
  }

  lemma OneLine(l: Line)
    requires l == []
    ensures Breaks([l], []) && Written([l], []) == l && forall i: nat :: !Ambiguous([l], [], i)
  {
  }

  lemma LinesStep(file: seq<Byte>)
    requires file != []
    ensures BreakLength(file) > 0 ==>
              var b, rest := file[..BreakLength(file)], file[BreakLength(file)..];
              && LinesOf(file) == [[]] + LinesOf(rest)
              && (b == [10] || b == [13, 10] || (b == [13] && !(rest != [] && rest[0] == 10)))
    ensures BreakLength(file) == 0 ==>
              var rest := LinesOf(file[1..]);
              LinesOf(file) == [[file[0]] + rest[0]] + rest[1..] && file[0] != 10 && file[0] != 13
  {
  }

  lemma BreakBefore(b: seq<Byte>, rest: seq<Line>, breaks: seq<seq<Byte>>)
    requires Breaks(rest, breaks) && forall i: nat :: !Ambiguous(rest, breaks, i)
    requires var w := Written(rest, breaks); b == [10] || b == [13, 10] || (b == [13] && !(w != [] && w[0] == 10))
    ensures Breaks([[]] + rest, [b] + breaks) && Written([[]] + rest, [b] + breaks) == b + Written(rest, breaks)
    ensures forall i: nat :: !Ambiguous([[]] + rest, [b] + breaks, i)
  {
    var text, all := [[]] + rest, [b] + breaks;
    assert text[1..] == rest && all[1..] == breaks;
    assert [] + (b + Written(rest, breaks)) == b + Written(rest, breaks);
    StartsWithFeed(rest, breaks);
    forall i: nat ensures !Ambiguous(text, all, i) {
      if i > 0 { assert !Ambiguous(rest, breaks, i - 1); }
      if Ambiguous(text, all, 0) { FeedFirst(rest, breaks); }
    }
  }

  lemma FeedFirst(text: seq<Line>, breaks: seq<seq<Byte>>)
    requires |text| == |breaks| + 1 && breaks != [] && text[0] == [] && breaks[0] == [10]
    ensures Written(text, breaks) != [] && Written(text, breaks)[0] == 10
  {
  }

  lemma LongerFirst(b: Byte, rest: seq<Line>, breaks: seq<seq<Byte>>)
    requires Breaks(rest, breaks) && b != 0 && b != 10 && b != 13
    ensures var t := [[b] + rest[0]] + rest[1..];
            && Breaks(t, breaks) && Written(t, breaks) == [b] + Written(rest, breaks)
            && forall i: nat :: Ambiguous(t, breaks, i) <==> Ambiguous(rest, breaks, i)
  {
    var t := [[b] + rest[0]] + rest[1..];
    assert t[1..] == rest[1..];
    if breaks != [] {
      var w := Written(rest[1..], breaks[1..]);
      assert [b] + rest[0] + (breaks[0] + w) == [b] + (rest[0] + (breaks[0] + w));
    }
  }

  function Feeds(n: nat): seq<seq<Byte>> {
    seq(n, _ => [10])
  }

  lemma {:induction false} FileIsWritten(text: seq<Line>)
    requires text != []
    ensures FileOf(text) == Written(text, Feeds(|text| - 1))
  {
    if |text| > 1 {
      FileIsWritten(text[1..]);
      assert Feeds(|text| - 1)[1..] == Feeds(|text| - 2);
      assert text[0] + [LF] + FileOf(text[1..]) == text[0] + ([10] + FileOf(text[1..]));
    }
  }

  /** Written by a system that ends lines with CR LF, or by one that ends them with LF: the same document. */
  lemma DosOrUnix(text: seq<Line>, dos: seq<seq<Byte>>, unix: seq<seq<Byte>>)
    requires Breaks(text, dos) && Breaks(text, unix)
    requires forall i | 0 <= i < |text| - 1 :: dos[i] == [13, 10] && unix[i] == [10]
    ensures LinesOf(Written(text, dos)) == LinesOf(Written(text, unix)) == text
  {
    AnyBreaks(text, dos);
    AnyBreaks(text, unix);
    hide LinesOf;
  }

  // ----- saving

  /** The bytes written are the buffer's, with LF for every NUL but the last. */
  lemma {:induction false} FileInBuffer(text: seq<Line>, i: nat)
    requires text != [] && forall r | 0 <= r < |text| :: Plain(text[r])
    ensures |Flat(text)| == |FileOf(text)| + 1 && Flat(text)[|FileOf(text)|] == NUL
    ensures i < |FileOf(text)| ==>
              Flat(text)[i] != LF && FileOf(text)[i] == if Flat(text)[i] == NUL then LF else Flat(text)[i]
  {
    var first := text[0];
    assert Plain(first);
    assert i < |first| ==> first[i] in first;
    if |text| > 1 {
      FileInBuffer(text[1..], if i > |first| then i - |first| - 1 else 0);
    } else {
      assert Flat(text[1..]) == [];
    }
  }

  /** `serializuj_dokument` (notatnik.cpp:1457-1467). */
  method Serialise(pad: N.Notepad) returns (ok: bool, length: nat)
    requires pad.Valid()
    modifies pad.doc
    ensures ok && length == pad.used - 1 == |FileOf(pad.text)| && pad.doc[..length] == FileOf(pad.text)
    ensures forall k | length <= k < N.CAPACITY :: pad.doc[k] == old(pad.doc[k])
    ensures forall k | 0 <= k < length ::
              old(pad.doc[k]) != LF && pad.doc[k] == if old(pad.doc[k]) == NUL then LF else old(pad.doc[k])
  {
    hide Flat, Plain;
    InBuffer(pad.doc[..pad.used], pad.text);
    var i := 0;
    while i + 1 < pad.used
      invariant 0 <= i < pad.used
      invariant forall k | i <= k < N.CAPACITY :: pad.doc[k] == old(pad.doc[k])
      invariant forall k | 0 <= k < i :: pad.doc[k] == if old(pad.doc[k]) == NUL then LF else old(pad.doc[k])
    {
      if pad.doc[i] == NUL { pad.doc[i] := LF; }
      i := i + 1;
    }
    ok, length := true, pad.used - 1;
    forall k | 0 <= k < length
      ensures pad.doc[k] == FileOf(pad.text)[k] && old(pad.doc[k]) != LF
    {
      assert old(pad.doc[..pad.used])[k] == old(pad.doc[k]);
    }
  }

  lemma InBuffer(buffer: seq<Byte>, text: seq<Line>)
    requires text != [] && (forall r | 0 <= r < |text| :: Plain(text[r])) && buffer == Flat(text)
    ensures |buffer| == |FileOf(text)| + 1
    ensures forall k | 0 <= k < |FileOf(text)| ::
              buffer[k] != LF && FileOf(text)[k] == if buffer[k] == NUL then LF else buffer[k]
  {
    hide Flat, Plain, FileOf;
    FileInBuffer(text, 0);
    forall k | 0 <= k < |FileOf(text)|
      ensures buffer[k] != LF && FileOf(text)[k] == if buffer[k] == NUL then LF else buffer[k]
    {
      FileInBuffer(text, k);
    }
  }

  /** `przywroc_separatory_dokumentu` (notatnik.cpp:1469-1473). */
  method Restore(pad: N.Notepad)
    requires pad.doc.Length == N.CAPACITY && pad.used <= N.CAPACITY
    modifies pad.doc
    ensures forall k | 0 <= k < N.CAPACITY ::
              pad.doc[k] == if k + 1 < pad.used && old(pad.doc[k]) == LF then NUL else old(pad.doc[k])
  {
    var i := 0;
    while i + 1 < pad.used
      invariant 0 <= i <= N.CAPACITY
      invariant forall k | i <= k < N.CAPACITY :: pad.doc[k] == old(pad.doc[k])
      invariant forall k | 0 <= k < i ::
                  pad.doc[k] == if k + 1 < pad.used && old(pad.doc[k]) == LF then NUL else old(pad.doc[k])
    {
      if pad.doc[i] == LF { pad.doc[i] := NUL; }
      i := i + 1;
    }
  }

  /** The buffer part of `zapisz_do_pliku` (notatnik.cpp:1475-1544): `written` is the file system's answer, `sent`
      what it was given. Whatever the answer, the document is as before. */
  method Save(pad: N.Notepad, written: bool) returns (ok: bool, sent: seq<Byte>)
    requires pad.Valid()
    modifies pad.doc
    ensures sent == FileOf(pad.text) == Written(pad.text, Feeds(|pad.text| - 1)) && ok == written
    ensures pad.doc[..] == old(pad.doc[..]) && pad.Valid()
  {
    hide Flat, Plain, FileOf;
    FileIsWritten(pad.text);
    var ready, length := Serialise(pad);
    sent := pad.doc[..length];
    Restore(pad);
    ok := written;
    SameBytes(old(pad.doc[..]), pad.doc[..]);
    assert pad.doc[..pad.used] == pad.doc[..][..pad.used];
    assert old(pad.doc[..pad.used]) == old(pad.doc[..])[..pad.used];
  }

  lemma SameBytes(a: seq<Byte>, b: seq<Byte>)
    requires |a| == |b| && forall k | 0 <= k < |a| :: a[k] == b[k]
    ensures a == b
  {
  }

  // ----- opening

  /** The buffer a file's document has. */
  function Parsed(file: seq<Byte>): seq<Byte> {
    Flat(LinesOf(file))
  }

  lemma ParsedStep(file: seq<Byte>)
    ensures file == [] ==> Parsed(file) == [NUL] && |LinesOf(file)| == 1
    ensures file != [] && BreakLength(file) > 0 ==>
              && Parsed(file) == [NUL] + Parsed(file[BreakLength(file)..])
              && |LinesOf(file)| == 1 + |LinesOf(file[BreakLength(file)..])|
    ensures file != [] && BreakLength(file) == 0 ==>
              Parsed(file) == [file[0]] + Parsed(file[1..]) && |LinesOf(file)| == |LinesOf(file[1..])|
  {
    hide Flat;
    if file == [] {
      N.EmptyFlat();
    } else if BreakLength(file) > 0 {
      FlatEmptyFirst(LinesOf(file[BreakLength(file)..]));
    } else {
      FlatOneMore(file[0], LinesOf(file[1..]));
    }
  }

  lemma FlatEmptyFirst(rest: seq<Line>)
    ensures Flat([[]] + rest) == [NUL] + Flat(rest)
  {
    hide Flat;
    FlatOne([], rest);
    assert [] + [NUL] == [NUL];
  }

  lemma FlatOneMore(b: Byte, rest: seq<Line>)
    requires rest != []
    ensures Flat([[b] + rest[0]] + rest[1..]) == [b] + Flat(rest)
  {
    hide Flat;
    FlatOne([b] + rest[0], rest[1..]);
    FlatOne(rest[0], rest[1..]);
    assert [rest[0]] + rest[1..] == rest;
    Regroup([b], rest[0] + [NUL], Flat(rest[1..]));
    Regroup([b], rest[0], [NUL]);
  }

  lemma {:induction false} ParsedShort(file: seq<Byte>)
    ensures |Parsed(file)| <= |file| + 1
  {
    hide Flat, LinesOf;
    ParsedStep(file);
    if file != [] { ParsedShort(file[if BreakLength(file) > 0 then BreakLength(file) else 1..]); }
  }

  /** The bytes written so far and those still to read. */
  lemma ParsedMore(done: seq<Byte>, b: Byte, rest: seq<Byte>)
    ensures done + ([b] + rest) == (done + [b]) + rest
  {
  }

  lemma LeftAfter(file: seq<Byte>, p: nat, n: nat)
    requires p + n <= |file|
    ensures file[p..][n..] == file[p + n..]
  {
  }

  /** A text file with a NUL in it is refused, not cut short. */
  method HoldsNul(pad: N.Notepad, n: nat) returns (found: bool)
    requires pad.doc.Length == N.CAPACITY && n <= N.CAPACITY
    ensures found <==> NUL in pad.doc[..n]
  {
    found := false;
    var i := 0;
    while i < n
      invariant 0 <= i <= n && NUL !in pad.doc[..i]
    {
      if pad.doc[i] == NUL {
        assert pad.doc[..n][i] == NUL;
        return true;
      }
      i := i + 1;
    }
  }

  /** One byte of text, or one line break, goes from `src` to `dst`. */
  method TakeNext(pad: N.Notepad, n: nat, src: nat, dst: nat) returns (next: nat)
    requires pad.doc.Length == N.CAPACITY && dst <= src < n <= N.CAPACITY
    modifies pad.doc, pad`lines
    ensures var left := old(pad.doc[src..n]);
            && next == src + (if BreakLength(left) > 0 then BreakLength(left) else 1) <= n
            && pad.doc[dst] == (if BreakLength(left) > 0 then NUL else left[0])
            && pad.lines == old(pad.lines) + (if BreakLength(left) > 0 then 1 else 0)
    ensures forall k | 0 <= k < N.CAPACITY && k != dst :: pad.doc[k] == old(pad.doc[k])
  {
    var ch := pad.doc[src];
    next := src + 1;
    if ch == CR {
      pad.doc[dst] := NUL;
      pad.lines := pad.lines + 1;
      if next < n && pad.doc[next] == LF { next := next + 1; }
    } else if ch == LF {
      pad.doc[dst] := NUL;
      pad.lines := pad.lines + 1;
    } else {
      pad.doc[dst] := ch;
    }
  }

  /** The loop of `parsuj_plik_do_dokumentu`: what is written never reaches what is still to read. */
  method Rewrite(pad: N.Notepad, n: nat, ghost file: seq<Byte>) returns (dst: nat)
    requires pad.doc.Length == N.CAPACITY && n <= MAX_FILE && file == pad.doc[..n] && pad.lines == 1
    modifies pad.doc, pad`lines
    ensures dst <= n && pad.doc[..dst] + [NUL] == Parsed(file) && pad.lines == |LinesOf(file)|
  {
    hide LinesOf, Parsed, BreakLength;
    var src := 0;
    dst := 0;
    assert file[0..] == file;
    NoneWritten(pad.doc[..dst], file);
    while src < n
      invariant 0 <= dst <= src <= n && forall k | src <= k < n :: pad.doc[k] == file[k]
      invariant pad.doc[..dst] + Parsed(file[src..]) == Parsed(file)
      invariant pad.lines - 1 + |LinesOf(file[src..])| == |LinesOf(file)|
    {
      ghost var done, left := pad.doc[..dst], file[src..];
      SameBytes(pad.doc[src..n], left);
      ParsedStep(left);
      var next := TakeNext(pad, n, src, dst);
      LeftAfter(file, src, next - src);
      SameBytes(pad.doc[..dst], done);
      assert pad.doc[..dst + 1] == pad.doc[..dst] + [pad.doc[dst]];
      ParsedMore(done, pad.doc[dst], Parsed(file[next..]));
      src, dst := next, dst + 1;
    }
    assert file[n..] == [];
    ParsedStep([]);
  }

  lemma NoneWritten(done: seq<Byte>, file: seq<Byte>)
    requires done == []
    ensures done + Parsed(file) == Parsed(file)
  {
  }

  /** `parsuj_plik_do_dokumentu` (notatnik.cpp:1550-1583), in place. */
  method Parse(pad: N.Notepad, n: nat) returns (ok: bool)
    requires pad.doc.Length == N.CAPACITY && n <= N.CAPACITY
    modifies pad, pad.doc
    ensures ok <==> n <= MAX_FILE && NUL !in old(pad.doc[..n])
    ensures ok ==> pad.Valid() && pad.View() == Doc(LinesOf(old(pad.doc[..n])), 0, 0)
    ensures !ok ==> unchanged(pad) && unchanged(pad.doc)
  {
    hide Flat, Plain, LinesOf, Parsed;
    if n > MAX_FILE { return false; }
    ghost var file := pad.doc[..n];
    var refused := HoldsNul(pad, n);
    if refused { return false; }
    pad.lines := 1;
    var dst := Rewrite(pad, n, file);
    ghost var done := pad.doc[..dst];
    pad.doc[dst] := NUL;
    dst := dst + 1;
    SameBytes(pad.doc[..dst], done + [NUL]);
    pad.used, pad.row, pad.col, pad.text := dst, 0, 0, LinesOf(file);
    LinesPlain(file);
    ParsedIsFlat(file);
    pad.Normalise();
    ok := true;
  }

  lemma ParsedIsFlat(file: seq<Byte>)
    ensures Parsed(file) == Flat(LinesOf(file))
  {
  }

  /** The buffer part of `otworz_z_pliku` (notatnik.cpp:1585-1643): a file too long leaves the document alone; one
      that holds a NUL is refused after its bytes have replaced the document's. */
  method Open(pad: N.Notepad, file: seq<Byte>) returns (ok: bool)
    requires pad.Valid()
    modifies pad, pad.doc
    ensures ok <==> |file| < 65536 && 0 !in file
    ensures ok ==> pad.Valid() && pad.View() == Doc(LinesOf(file), 0, 0)
    ensures forall text: seq<Line>, breaks: seq<seq<Byte>> {:trigger Written(text, breaks)} ::
              ok && Unmistakable(text, breaks) && file == Written(text, breaks) ==> pad.View() == Doc(text, 0, 0)
    ensures |file| >= 65536 ==> pad.Valid() && pad.View() == old(pad.View())
  {
    hide Flat, Plain, LinesOf, Ambiguous;
    forall text: seq<Line>, breaks: seq<seq<Byte>> | Unmistakable(text, breaks)
      ensures LinesOf(Written(text, breaks)) == text
    {
      AnyBreaks(text, breaks);
    }
    if |file| > MAX_FILE { return false; }
    forall k | 0 <= k < |file| { pad.doc[k] := file[k]; }
    assert pad.doc[..|file|] == file;
    ok := Parse(pad, |file|);
  }

  /** A saved document is a file the editor opens again. */
  lemma SavedOpens(text: seq<Line>)
    requires text != [] && (forall r | 0 <= r < |text| :: Plain(text[r])) && |Flat(text)| <= N.CAPACITY
    ensures |FileOf(text)| <= MAX_FILE && NUL !in FileOf(text) && LinesOf(FileOf(text)) == text
  {
    hide Flat, Plain, FileOf, LinesOf;
    OpenSaved(text);
    InBuffer(Flat(text), text);
  }
}
