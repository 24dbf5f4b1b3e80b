// Names and path strings of psf.cpp: which strings are accepted, how a path splits into
// segments, and what the byte-wise prefix test of a move or a copy really decides.
module BspPaths {
  import opened BspTypes

  /** `poprawna_nazwa` (psf.cpp:1284-1331). */
  predicate ValidName(n: Name) {
    && 0 < |n| < NAME_FIELD
    && n != [DOT]
    && n != [DOT, DOT]
    && forall c <- n :: c != SLASH && c != BACKSLASH && c >= 0x20
  }

  /** A path as its list of segments; "/" is the empty list. */
  function Split(s: seq<Byte>): (segs: seq<Name>)
    ensures |segs| > 0
  {
    if s == [] then [[]]
    else if s[0] == SLASH then [[]] + Split(s[1..])
    else var t := Split(s[1..]); [[s[0]] + t[0]] + t[1..]
  }

  function Join(segs: seq<Name>): seq<Byte>
    requires |segs| > 0
  {
    if |segs| == 1 then segs[0] else segs[0] + [SLASH] + Join(segs[1..])
  }

  function PathOf(s: CString): seq<Name> {
    if s == [] || s == [SLASH] then [] else Split(s[1..])
  }

  /** What `bezpieczna_sciezka` accepts: absolute, below the length limit, no empty segment. */
  ghost predicate CanonicalPath(s: CString) {
    && 0 < |s| < 512
    && s[0] == 47
    && [] !in PathOf(s)
  }

  /** `bezpieczna_sciezka` (psf.cpp:1333-1388). */
  method CheckPath(s: CString) returns (ok: bool)
    ensures ok <==> CanonicalPath(s)
  {
    if |s| >= PATH_LIMIT || |s| == 0 || s[0] != SLASH { return false; }
    if |s| == 1 { return true; }
    if s[|s|-1] == SLASH {
      SplitEndSlash(s[1..]);
      return false;
    }
    var previousSlash := true;
    var i := 1;
    assert s[1..] == s[i..];
    while i < |s|
      invariant 1 <= i <= |s|
      invariant previousSlash <==> s[i-1] == SLASH
      invariant !NoEmptyAfter(s[1..], true) <==> !NoEmptyAfter(s[i..], previousSlash)
    {
      assert s[i..][1..] == s[i+1..];
      if s[i] == SLASH {
        if previousSlash {
          NoEmptySplit(s[1..], true);
          return false;
        }
        previousSlash := true;
      } else {
        previousSlash := false;
      }
      i := i + 1;
    }
    NoEmptySplit(s[1..], true);
    return true;
  }

  /** No slash in `s` follows another slash; `prev` says whether one precedes `s`. */
  ghost predicate NoEmptyAfter(s: seq<Byte>, prev: bool) {
    s == [] || (if s[0] == SLASH then !prev && NoEmptyAfter(s[1..], true) else NoEmptyAfter(s[1..], false))
  }

  lemma {:induction false} NoEmptySplit(s: seq<Byte>, prev: bool)
    requires s != [] ==> s[|s|-1] != SLASH
    requires s == [] ==> !prev
    ensures NoEmptyAfter(s, prev) <==> (if prev then [] !in Split(s) else [] !in Split(s)[1..])
  {
    if s != [] {
      var t := Split(s[1..]);
      if |s| > 1 {
        NoEmptySplit(s[1..], s[0] == SLASH);
      }
      if s[0] == SLASH {
        assert Split(s)[1..] == t;
      } else {
        assert Split(s)[1..] == t[1..];
        assert Split(s)[0] != [];
      }
    }
  }

  lemma {:induction false} SplitEndSlash(s: seq<Byte>)
    requires s != [] && s[|s|-1] == SLASH
    ensures Split(s)[|Split(s)|-1] == [] && |Split(s)| > 1
  {
    if |s| > 1 { SplitEndSlash(s[1..]); }
  }

  lemma {:induction false} SplitSegments(s: seq<Byte>, k: nat)
    requires k < |Split(s)|
    ensures SLASH !in Split(s)[k]
  {
    if s != [] {
      var t := Split(s[1..]);
      if s[0] == SLASH {
        if k > 0 { SplitSegments(s[1..], k - 1); }
      } else {
        SplitSegments(s[1..], k);
      }
    }
  }

  lemma {:induction false} JoinSplit(s: seq<Byte>)
    ensures Join(Split(s)) == s
  {
    if s != [] {
      var t := Split(s[1..]);
      JoinSplit(s[1..]);
      if s[0] != SLASH {
        assert Split(s)[1..] == t[1..];
      } else {
        assert Split(s)[1..] == t;
      }
    }
  }

  /** Cutting a string at a slash cuts its segment list there. */
  lemma {:induction false} SplitCut(x: seq<Byte>, y: seq<Byte>)
    ensures Split(x + [SLASH] + y) == Split(x) + Split(y)
  {
    var z := x + [SLASH] + y;
    if x == [] {
      assert z[1..] == y;
    } else {
      assert z[1..] == x[1..] + [SLASH] + y;
      SplitCut(x[1..], y);
    }
  }

  lemma {:induction false} JoinAppend(a: seq<Name>, b: seq<Name>)
    requires |a| > 0 && |b| > 0
    ensures Join(a + b) == Join(a) + [SLASH] + Join(b)
  {
    if |a| == 1 {
      assert (a + b)[1..] == b;
    } else {
      assert (a + b)[1..] == a[1..] + b;
      JoinAppend(a[1..], b);
    }
  }

  lemma {:induction false} OneSegment(s: seq<Byte>)
    requires 47 !in s
    ensures Split(s) == [s]
  {
    if s != [] {
      assert 47 !in s[1..];
      OneSegment(s[1..]);
      assert [s[0]] + s[1..] == s;
    }
  }

  /** A slash before each of the names. */
  function Slashed(names: seq<Name>): seq<Byte> {
    if names == [] then [] else [47] + names[0] + Slashed(names[1..])
  }

  lemma SlashedParts(names: seq<Name>)
    requires names != []
    ensures Slashed(names) != [] && Slashed(names)[0] == 47
    ensures Slashed(names)[1..] == names[0] + Slashed(names[1..])
  {
  }

  lemma NoNuls(a: seq<Byte>, b: seq<Byte>)
    requires 0 !in a && 0 !in b
    ensures 0 !in [47] + a + b
  {
  }

  lemma {:induction false} SlashedSplits(names: seq<Name>)
    requires names != [] && forall i | 0 <= i < |names| :: 0 !in names[i] && 47 !in names[i]
    ensures Slashed(names) != [] && Slashed(names)[0] == 47 && Split(Slashed(names)[1..]) == names
    ensures 0 !in Slashed(names)
  {
    hide Split;
    var first, rest := names[0], Slashed(names[1..]);
    SlashedParts(names);
    OneSegment(first);
    if |names| == 1 {
      assert first + rest == first;
    } else {
      SlashedSplits(names[1..]);
      hide Slashed;
      assert first + rest == first + [47] + rest[1..];
      SplitCut(first, rest[1..]);
    }
    NoNuls(first, rest);
  }

  /** Any names, none of them empty and none with a NUL or a slash in it, make an accepted path that leads along them,
      if its length stays below 512; and no other string does. */
  lemma PathWritten(names: seq<Name>, s: CString)
    requires names != [] && forall i | 0 <= i < |names| :: names[i] != [] && 0 !in names[i] && 47 !in names[i]
    ensures CanonicalPath(s) && PathOf(s) == names <==> s == Slashed(names) && |s| < 512
  {
    SlashedSplits(names);
    if CanonicalPath(s) && PathOf(s) == names {
      JoinSplit(s[1..]);
      var w := Slashed(names);
      JoinSplit(w[1..]);
      assert s == [47] + s[1..] && w == [47] + w[1..];
    }
    if s == Slashed(names) && |s| < 512 { NotRootPath(names); }
  }

  lemma NotRootPath(names: seq<Name>)
    requires names != [] && names[0] != []
    ensures |Slashed(names)| > 1
  {
  }

  /** Two accepted paths with the same segments are the same string. */
  lemma PathOfInjective(a: CString, b: CString)
    requires CanonicalPath(a) && CanonicalPath(b) && PathOf(a) == PathOf(b)
    ensures a == b
  {
    JoinSplit(a[1..]);
    JoinSplit(b[1..]);
    assert a == [SLASH] + a[1..];
    assert b == [SLASH] + b[1..];
  }

  /** The prefix loop of `przenies_twor` and `kopiuj_twor_z_pzb` (psf.cpp:4246-4253, 4300-4307). */
  method PrefixTest(path: CString, folder: CString) returns (inside: bool)
    ensures inside <==> BytePrefix(path, folder)
  {
    var i := 0;
    while i < |path| && i < |folder| && folder[i] == path[i]
      invariant 0 <= i <= |path| && i <= |folder|
      invariant path[..i] == folder[..i]
    {
      i := i + 1;
    }
    if i < |path| { return false; }
    return i == |folder| || folder[i] == SLASH;
  }

  ghost predicate BytePrefix(path: CString, folder: CString) {
    && path <= folder
    && (|folder| == |path| || folder[|path|] == SLASH)
  }

  lemma BytePrefixCuts(path: CString, folder: CString)
    requires CanonicalPath(path) && CanonicalPath(folder) && PathOf(path) != []
    requires BytePrefix(path, folder)
    ensures PathOf(path) <= PathOf(folder)
  {
    if |folder| > |path| {
      var rest := folder[|path|+1..];
      assert folder[1..] == path[1..] + [SLASH] + rest;
      SplitCut(path[1..], rest);
      assert PathOf(folder) == PathOf(path) + Split(rest);
    } else {
      assert path == folder;
    }
  }

  lemma PathPrefixJoins(path: CString, folder: CString)
    requires CanonicalPath(path) && CanonicalPath(folder) && PathOf(path) != []
    requires PathOf(path) <= PathOf(folder)
    ensures BytePrefix(path, folder)
  {
    var rest := PathOf(folder)[|PathOf(path)|..];
    assert PathOf(folder) == PathOf(path) + rest;
    if rest == [] {
      PathOfInjective(path, folder);
    } else {
      JoinSplit(path[1..]);
      JoinSplit(folder[1..]);
      JoinAppend(PathOf(path), rest);
      assert folder[1..] == path[1..] + [SLASH] + Join(rest);
      assert folder == [SLASH] + folder[1..] && path == [SLASH] + path[1..];
    }
  }

  /** On accepted paths the byte-wise test is exactly the segment-wise prefix relation. */
  lemma BytePrefixIsPathPrefix(path: CString, folder: CString)
    requires CanonicalPath(path) && CanonicalPath(folder) && PathOf(path) != []
    ensures BytePrefix(path, folder) <==> PathOf(path) <= PathOf(folder)
  {
    if BytePrefix(path, folder) { BytePrefixCuts(path, folder); }
    if PathOf(path) <= PathOf(folder) { PathPrefixJoins(path, folder); }
  }
}
