// Directories in data blocks, and the path resolver (psf.cpp:1444-1931).
module BspDirectory {
  import opened BspTypes
  import opened BspPaths
  import opened BspForest
  import opened BspState
  import opened BspStore

  ghost predicate PtrsValid(m: Mem, d: nat) {
    forall k: nat {:trigger PtrAt(m, d, k)} :: PtrAt(m, d, k) != NO_BLOCK ==> PtrAt(m, d, k) < |m.blocks|
  }

  ghost predicate Listed(m: Mem, d: nat, n: Name) {
    exists k: nat, j: nat {:trigger EntryAt(m, d, k, j)} :: EntryAt(m, d, k, j).id != 0 && EntryAt(m, d, k, j).name == n
  }

  ghost predicate AllUsed(m: Mem) {
    forall b | 0 <= b < |m.used| :: m.used[b]
  }

  /** Slots (l, j) with l < k exist and are taken. */
  ghost predicate FullBefore(m: Mem, d: nat, k: nat) {
    && (forall l: nat {:trigger PtrAt(m, d, l)} | l < k :: PtrAt(m, d, l) != NO_BLOCK)
    && (forall l: nat, j: nat {:trigger EntryAt(m, d, l, j)} | l < k && j < ENTRIES_PER_BLOCK ::
        EntryAt(m, d, l, j).id != 0)
  }

  /** A slot is free, or a pointer and a block for a new one are. */
  ghost predicate Room(m: Mem, d: nat) {
    || (exists k: nat, j: nat {:trigger EntryAt(m, d, k, j)} ::
          PtrAt(m, d, k) != NO_BLOCK && j < ENTRIES_PER_BLOCK && EntryAt(m, d, k, j).id == 0)
    || ((exists k: nat {:trigger PtrAt(m, d, k)} :: k < PTRS_PER_NODE && PtrAt(m, d, k) == NO_BLOCK) && !AllUsed(m))
  }

  /** `znajdz_wpis_w_katalogu` (psf.cpp:1459-1540). */
  method FindEntry(s: Store, d: nat, name: Name) returns (found: bool, id: nat, block: nat, j: nat, ghost k: nat)
    requires s.Ok()
    ensures found ==>
              && ValidName(name) && IsDir(s.mem, d) && d != 0
              && k < PTRS_PER_NODE && PtrAt(s.mem, d, k) == block < |s.mem.blocks|
              && j < ENTRIES_PER_BLOCK && id != 0 && EntryAt(s.mem, d, k, j) == Entry(id, name)
    ensures !found ==>
              !ValidName(name) || !IsDir(s.mem, d) || !PtrsValid(s.mem, d) || !Listed(s.mem, d, name)
  {
    hide Store.Ok;
    found, id, block, j, k := false, 0, 0, 0, 0;
    if !ValidName(name) || !s.NodeId(d) || s.NodeAt(d).kind != Dir { return; }
    var w := s.NodeAt(d);
    var at := 0;
    while at < PTRS_PER_NODE
      invariant 0 <= at <= PTRS_PER_NODE && !found
      invariant PtrsValid(s.mem, d)
                || (forall l: nat | l < at :: PtrAt(s.mem, d, l) == NO_BLOCK || PtrAt(s.mem, d, l) < |s.mem.blocks|)
      invariant forall l: nat, h: nat {:trigger EntryAt(s.mem, d, l, h)} | l < at
                && EntryAt(s.mem, d, l, h).id != 0 :: EntryAt(s.mem, d, l, h).name != name
    {
      var b := w.ptrs[at];
      assert b == PtrAt(s.mem, d, at);
      if b != NO_BLOCK {
        if b >= s.DataCount() { return; }
        var entries := EntriesOf(s.DataAt(b));
        var i := 0;
        while i < ENTRIES_PER_BLOCK
          invariant 0 <= i <= ENTRIES_PER_BLOCK
          invariant forall h: nat | h < i && EntryAt(s.mem, d, at, h).id != 0 :: EntryAt(s.mem, d, at, h).name != name
        {
          assert entries[i] == EntryAt(s.mem, d, at, i);
          if entries[i].id != 0 && entries[i].name == name {
            return true, entries[i].id, b, i, at;
          }
          i := i + 1;
        }
      }
      at := at + 1;
    }
  }

  /** In a sound state the search is a look-up in the directory's names. */
  lemma FoundIffNamed(m: Mem, d: nat, names: map<Name, Slot>, n: Name)
    requires DirOk(m, d, names)
    ensures Listed(m, d, n) <==> n in names
    ensures forall k: nat, j: nat :: EntryAt(m, d, k, j).id != 0 && EntryAt(m, d, k, j).name == n ==>
              n in names && names[n] == Slot(k, j, EntryAt(m, d, k, j).id)
  {
    if n in names { assert EntryAt(m, d, names[n].k, names[n].j).name == n; }
  }

  lemma OwnedPtrsValid(m: Mem, own: map<nat, Owner>, d: nat)
    requires Owned(m, own)
    ensures PtrsValid(m, d)
  {
  }

  /** `katalog_pusty` (psf.cpp:1542-1595). */
  method DirEmpty(s: Store, d: nat) returns (empty: bool)
    requires s.Ok()
    ensures empty <==> IsDir(s.mem, d) && PtrsValid(s.mem, d) && forall k: nat, j: nat ::
            EntryAt(s.mem, d, k, j).id == 0
  {
    hide Store.Ok;
    if !s.NodeId(d) { return false; }
    var w := s.NodeAt(d);
    if w.kind != Dir { return false; }
    var at := 0;
    while at < PTRS_PER_NODE
      invariant 0 <= at <= PTRS_PER_NODE
      invariant forall l: nat {:trigger PtrAt(s.mem, d, l)} | l < at ::
                  PtrAt(s.mem, d, l) == NO_BLOCK || PtrAt(s.mem, d, l) < |s.mem.blocks|
      invariant forall l: nat, h: nat {:trigger EntryAt(s.mem, d, l, h)} | l < at :: EntryAt(s.mem, d, l, h).id == 0
    {
      var b := w.ptrs[at];
      assert b == PtrAt(s.mem, d, at);
      if b != NO_BLOCK {
        if b >= s.DataCount() { return false; }
        var entries := EntriesOf(s.DataAt(b));
        var i := 0;
        while i < ENTRIES_PER_BLOCK
          invariant 0 <= i <= ENTRIES_PER_BLOCK
          invariant forall h: nat | h < i :: EntryAt(s.mem, d, at, h).id == 0
        {
          assert entries[i] == EntryAt(s.mem, d, at, i);
          if entries[i].id != 0 { return false; }
          i := i + 1;
        }
      }
      at := at + 1;
    }
    return true;
  }

  /** The first empty slot of a directory block. */
  method FreeSlot(s: Store, b: nat) returns (j: nat)
    requires s.Ok() && b < |s.mem.blocks|
    ensures j <= ENTRIES_PER_BLOCK
    ensures forall i | 0 <= i < j :: EntriesOf(s.mem.blocks[b])[i].id != 0
    ensures j < ENTRIES_PER_BLOCK ==> EntriesOf(s.mem.blocks[b])[j].id == 0
  {
    hide Store.Ok;
    var entries := EntriesOf(s.DataAt(b));
    j := 0;
    while j < ENTRIES_PER_BLOCK && entries[j].id != 0
      invariant j <= ENTRIES_PER_BLOCK
      invariant forall i | 0 <= i < j :: entries[i].id != 0
    {
      j := j + 1;
    }
  }

  /** Overwrites one slot, adjusts the count, marks both blocks. */
  method WriteEntry(s: Store, d: nat, b: nat, j: nat, e: Entry, count: nat, ghost k: nat)
    requires s.Ok() && s.NodeId(d) && PtrAt(s.mem, d, k) == b < |s.mem.blocks| && j < ENTRIES_PER_BLOCK
    modifies s.ram, s`mem, s`pend, s`dirty, s`dirtyAll
    ensures s.Ok() && s.pend <= old(s.pend)
    ensures s.mem == Written(old(s.mem), d, k, j, e, count)
  {
    hide Store.Ok;
    s.PutData(b, Entries(EntriesOf(s.DataAt(b))[j := e]));
    s.MarkData(b);
    s.PutNode(d, s.NodeAt(d).(size := count));
    s.MarkNode(d);
  }

  /** Pointer `k` of directory `d` takes a new block. */
  method GrowDir(s: Store, d: nat, k: nat) returns (b: nat)
    requires s.Ok() && s.NodeId(d) && k < PTRS_PER_NODE && PtrAt(s.mem, d, k) == NO_BLOCK
    modifies s.ram, s`mem, s`pend, s`dirty, s`dirtyAll, s`hint
    ensures s.Ok() && s.pend <= old(s.pend)
    ensures b == NO_BLOCK ==> s.mem == old(s.mem) && AllUsed(s.mem)
    ensures b != NO_BLOCK ==>
              && b < |old(s.mem).blocks| && !old(s.mem).used[b]
              && s.mem == Grown(old(s.mem), d, k, b, Blank)
  {
    hide Store.Ok;
    b := s.AllocBlock();
    if b == NO_BLOCK { return; }
    s.PutNode(d, WithPtr(s.NodeAt(d), k, b));
    s.MarkNode(d);
  }

  /** Where `AddEntry` put its entry, and the block it took for it, if any. */
  datatype Spot = Spot(k: nat, j: nat, grew: bool, block: nat)

  ghost predicate SpotFits(m: Mem, d: nat, t: Spot) {
    && Sized(m) && 0 < d < |m.nodes| && t.k < PTRS_PER_NODE && t.j < ENTRIES_PER_BLOCK && t.block < |m.blocks|
    && (forall l: nat :: l < t.k ==> PtrAt(m, d, l) != NO_BLOCK)
    && if t.grew
       then PtrAt(m, d, t.k) == NO_BLOCK && !m.used[t.block]
       else PtrAt(m, d, t.k) == t.block && EntryAt(m, d, t.k, t.j).id == 0
  }

  /** The spot is the first free one in slot order. */
  ghost predicate FirstSpot(m: Mem, d: nat, t: Spot) {
    FullBefore(m, d, t.k) && forall h: nat | h < t.j :: EntryAt(m, d, t.k, h).id != 0
  }

  ghost function GrownAt(m: Mem, d: nat, t: Spot): Mem
    requires SpotFits(m, d, t)
  {
    if t.grew then Grown(m, d, t.k, t.block, Blank) else m
  }

  ghost function Added(m: Mem, d: nat, t: Spot, e: Entry): Mem
    requires SpotFits(m, d, t)
  {
    Written(GrownAt(m, d, t), d, t.k, t.j, e, m.nodes[d].size + 1)
  }

  /** Why an entry is refused. */
  ghost predicate Refused(m: Mem, d: nat, x: nat, name: Name) {
    || !ValidName(name)
    || !(0 < x < |m.nodes|)
    || !IsDir(m, d)
    || !PtrsValid(m, d)
    || Listed(m, d, name)
    || (exists k: nat :: k <= PTRS_PER_NODE && FullBefore(m, d, k)
                         && (k == PTRS_PER_NODE || (PtrAt(m, d, k) == NO_BLOCK && AllUsed(m))))
  }

  /** Enters `e` in a block of its own, at pointer `k`. */
  method AddInNewBlock(s: Store, d: nat, k: nat, e: Entry) returns (ok: bool, ghost t: Spot)
    requires s.Ok() && s.NodeId(d) && k < PTRS_PER_NODE && FullBefore(s.mem, d, k) && PtrAt(s.mem, d, k) == NO_BLOCK
    modifies s.ram, s`mem, s`pend, s`dirty, s`dirtyAll, s`hint
    ensures s.Ok() && s.pend <= old(s.pend)
    ensures ok ==> SpotFits(old(s.mem), d, t) && FirstSpot(old(s.mem), d, t) && s.mem == Added(old(s.mem), d, t, e)
    ensures !ok ==> s.mem == old(s.mem) && AllUsed(s.mem)
  {
    hide Store.Ok;
    var b := GrowDir(s, d, k);
    t := Spot(k, 0, true, b);
    if b == NO_BLOCK { return false, t; }
    assert s.mem == GrownAt(old(s.mem), d, t);
    WriteEntry(s, d, b, 0, e, s.NodeAt(d).size + 1, k);
    ok := true;
  }

  /** Enters `e` in the first empty slot of the block at pointer `k`, if there is one. */
  method AddInBlock(s: Store, d: nat, k: nat, b: nat, e: Entry) returns (ok: bool, ghost t: Spot)
    requires s.Ok() && s.NodeId(d) && k < PTRS_PER_NODE && FullBefore(s.mem, d, k)
    requires PtrAt(s.mem, d, k) == b < |s.mem.blocks|
    modifies s.ram, s`mem, s`pend, s`dirty, s`dirtyAll, s`hint
    ensures s.Ok() && s.pend <= old(s.pend)
    ensures ok ==> SpotFits(old(s.mem), d, t) && FirstSpot(old(s.mem), d, t) && s.mem == Added(old(s.mem), d, t, e)
    ensures !ok ==> s.mem == old(s.mem) && FullBefore(s.mem, d, k + 1)
  {
    hide Store.Ok;
    var j := FreeSlot(s, b);
    t := Spot(k, j, false, b);
    assert forall h: nat | h < ENTRIES_PER_BLOCK :: EntryAt(s.mem, d, k, h) == EntriesOf(s.mem.blocks[b])[h];
    if j == ENTRIES_PER_BLOCK { return false, t; }
    assert EntryAt(s.mem, d, k, j).id == 0;
    WriteEntry(s, d, b, j, e, s.NodeAt(d).size + 1, k);
    ok := true;
  }

  /** `dodaj_wpis_do_katalogu` (psf.cpp:1597-1750): all or nothing. */
  method AddEntry(s: Store, d: nat, x: nat, name: Name) returns (ok: bool, ghost t: Spot)
    requires s.Ok()
    modifies s.ram, s`mem, s`pend, s`dirty, s`dirtyAll, s`hint
    ensures s.Ok() && s.pend <= old(s.pend)
    ensures ok ==>
              && ValidName(name) && 0 < x < |old(s.mem).nodes| && IsDir(old(s.mem), d)
              && (PtrsValid(old(s.mem), d) ==> !Listed(old(s.mem), d, name))
              && SpotFits(old(s.mem), d, t) && FirstSpot(old(s.mem), d, t)
              && s.mem == Added(old(s.mem), d, t, Entry(x, name))
    ensures !ok ==> s.mem == old(s.mem) && Refused(s.mem, d, x, name)
  {
    hide Store.Ok;
    ok, t := false, Spot(0, 0, false, 0);
    if !ValidName(name) || !s.NodeId(x) { return; }
    var found, _, _, _, where := FindEntry(s, d, name);
    if found {
      assert Listed(s.mem, d, name);
      return;
    }
    if !s.NodeId(d) || s.NodeAt(d).kind != Dir { return; }
    var at := 0;
    while at < PTRS_PER_NODE
      invariant 0 <= at <= PTRS_PER_NODE
      invariant s.Ok() && s.pend <= old(s.pend) && s.mem == old(s.mem)
      invariant FullBefore(s.mem, d, at)
    {
      var b := s.NodeAt(d).ptrs[at];
      assert b == PtrAt(s.mem, d, at);
      if b == NO_BLOCK {
        ok, t := AddInNewBlock(s, d, at, Entry(x, name));
        return;
      }
      if b >= s.DataCount() { return; }
      ok, t := AddInBlock(s, d, at, b, Entry(x, name));
      if ok { return; }
      at := at + 1;
    }
  }

  lemma OnlyNodeTwice(m: Mem, m1: Mem, m2: Mem, i: nat)
    requires OnlyNode(m, m1, i) && OnlyNode(m1, m2, i)
    ensures OnlyNode(m, m2, i)
  {
    forall y: nat, k: nat | y != i && PtrAt(m, y, k) < |m.blocks|
      ensures m2.blocks[PtrAt(m, y, k)] == m.blocks[PtrAt(m, y, k)]
    {
      assert PtrAt(m1, y, k) == PtrAt(m, y, k);
    }
  }

  ghost function SpotOwn(own: map<nat, Owner>, d: nat, t: Spot): map<nat, Owner> {
    if t.grew then own[t.block := Owner(d, t.k)] else own
  }

  /** What a successful `AddEntry` does to the invariant. */
  lemma AddedStruct(m: Mem, own: map<nat, Owner>, dirs: Dirs, busy: nat, d: nat, t: Spot, x: nat, n: Name)
    requires Struct(m, own, dirs, busy) && d in dirs && d != busy && SpotFits(m, d, t)
    requires ValidName(n) && (PtrsValid(m, d) ==> !Listed(m, d, n)) && x != 0
    ensures n !in dirs[d]
    ensures var m' := Added(m, d, t, Entry(x, n));
            && OnlyNode(m, m', d) && Live(m') == Live(m)
            && Struct(m', SpotOwn(own, d, t), dirs[d := dirs[d][n := Slot(t.k, t.j, x)]], busy)
  {
    hide Struct, OnlyNode, Listed, PtrsValid, DirOk, Live, Written;
    NotNamed(m, own, dirs, busy, d, n);
    var m1 := GrownAt(m, d, t);
    if t.grew { DirGrows(m, own, dirs, busy, d, t.k, t.block); } else { OnlyItself(m, d); }
    SpotGrown(m, d, t);
    DirGains(m1, SpotOwn(own, d, t), dirs, busy, d, t.k, t.j, n, x);
    var m' := Added(m, d, t, Entry(x, n));
    OnlyNodeTwice(m, m1, m', d);
    AddedLive(m, d, t, Entry(x, n));
  }

  lemma NotNamed(m: Mem, own: map<nat, Owner>, dirs: Dirs, busy: nat, d: nat, n: Name)
    requires Struct(m, own, dirs, busy) && d in dirs && d != busy && (PtrsValid(m, d) ==> !Listed(m, d, n))
    ensures n !in dirs[d]
  {
    OwnedPtrsValid(m, own, d);
    FoundIffNamed(m, d, dirs[d], n);
  }

  lemma OnlyItself(m: Mem, d: nat)
    ensures OnlyNode(m, m, d)
  {
  }

  lemma SpotGrown(m: Mem, d: nat, t: Spot)
    requires SpotFits(m, d, t)
    ensures var m1 := GrownAt(m, d, t);
            && PtrAt(m1, d, t.k) == t.block < |m1.blocks| && t.block != NO_BLOCK && EntryAt(m1, d, t.k, t.j).id == 0
            && d < |m1.nodes| && m1.nodes[d].size == m.nodes[d].size
  {
  }

  lemma AddedLive(m: Mem, d: nat, t: Spot, e: Entry)
    requires SpotFits(m, d, t)
    ensures Live(Added(m, d, t, e)) == Live(m)
  {
    forall i: nat ensures i in Live(Added(m, d, t, e)) <==> i in Live(m) {}
  }

  /** In a sound directory a refusal is one of the documented reasons. */
  lemma RefusedMeans(m: Mem, own: map<nat, Owner>, d: nat, names: map<Name, Slot>, x: nat, n: Name)
    requires Sized(m) && Owned(m, own) && IsDir(m, d) && DirOk(m, d, names) && Refused(m, d, x, n)
    ensures !ValidName(n) || !(0 < x < |m.nodes|) || n in names || !Room(m, d)
  {
    OwnedPtrsValid(m, own, d);
    FoundIffNamed(m, d, names, n);
    if ValidName(n) && 0 < x < |m.nodes| && n !in names {
      var k: nat :| k <= PTRS_PER_NODE && FullBefore(m, d, k)
                    && (k == PTRS_PER_NODE || (PtrAt(m, d, k) == NO_BLOCK && AllUsed(m)));
      forall l: nat, j: nat | PtrAt(m, d, l) != NO_BLOCK && j < ENTRIES_PER_BLOCK
        ensures EntryAt(m, d, l, j).id != 0
      {}
    }
  }

  lemma AddedHadRoom(m: Mem, d: nat, t: Spot)
    requires SpotFits(m, d, t)
    ensures Room(m, d)
  {
    if !t.grew { assert EntryAt(m, d, t.k, t.j).id == 0; } else { assert PtrAt(m, d, t.k) == NO_BLOCK; }
  }

  // ----- paths

  /** `pobierz_segment` (psf.cpp:1756-1815). */
  method NextSegment(path: CString, i: nat) returns (ok: bool, segment: Name, last: bool, next: nat)
    requires i < |path|
    ensures ok ==> segment == Split(path[i..])[0] && ValidName(segment)
    ensures !ok ==> !ValidName(Split(path[i..])[0])
    ensures ok && last ==> |Split(path[i..])| == 1
    ensures ok && !last ==>
              && i < next <= |path| && path[next-1] == SLASH
              && Split(path[next..]) == Split(path[i..])[1..] && |Split(path[i..])| > 1
  {
    ok, segment, last, next := false, [], false, i;
    if path[i] == SLASH { return; }
    var pos := i;
    while pos < |path| && path[pos] != SLASH
      invariant i <= pos <= |path|
      invariant segment == path[i..pos] && SLASH !in segment && |segment| < NAME_FIELD
      decreases |path| - pos
    {
      if |segment| + 1 >= NAME_FIELD {
        SegmentPrefix(path[i..], pos + 1 - i);
        return;
      }
      segment := segment + [path[pos]];
      pos := pos + 1;
    }
    SegmentPrefix(path[i..], pos - i);
    if pos == |path| {
      assert path[i..] == segment;
      OneSegment(segment);
    } else {
      assert path[i..] == segment + [SLASH] + path[pos+1..];
      SplitCut(segment, path[pos+1..]);
      OneSegment(segment);
    }
    if !ValidName(segment) { return; }
    ok := true;
    last := pos == |path|;
    next := if last then pos else pos + 1;
  }

  lemma {:induction false} SegmentPrefix(s: seq<Byte>, n: nat)
    requires n <= |s| && SLASH !in s[..n]
    ensures s[..n] <= Split(s)[0]
  {
    if n > 0 {
      assert s[..n] == [s[0]] + s[1..][..n-1];
      assert s[0] in s[..n];
      SegmentPrefix(s[1..], n - 1);
    }
  }

  lemma DeadWalk(g: Graph, r: nat, p: Path, t: nat)
    requires 0 !in g && t <= |p| && Walk(g, r, p[..t]) == 0
    ensures Walk(g, r, p) == 0
  {
    assert p == p[..t] + p[t..];
    WalkConcat(g, r, p[..t], p[t..]);
    WalkFromZero(g, p[t..]);
  }

  /** The node an accepted path leads to, or 0. */
  ghost function Lookup(s: Store, path: CString): nat
    reads s`shape, s`geo
  {
    if CanonicalPath(path) then Walk(GraphOf(s.shape.dirs), s.geo.root, PathOf(path)) else 0
  }

  /** The directory an accepted path's last name belongs to, or 0. */
  ghost function LookupParent(s: Store, path: CString): nat
    reads s`shape, s`geo
  {
    if CanonicalPath(path) && PathOf(path) != [] && ValidName(Last(PathOf(path))) then
      var d := Walk(GraphOf(s.shape.dirs), s.geo.root, Front(PathOf(path)));
      if d in s.shape.dirs then d else 0
    else 0
  }

  ghost function Last(p: Path): Name
    requires p != []
  {
    p[|p|-1]
  }

  ghost function Front(p: Path): Path
    requires p != []
  {
    p[..|p|-1]
  }

  lemma DeadEnd(g: Graph, r: nat, p: Path, t: nat)
    requires 0 !in g && t < |p| && Walk(g, r, p[..t+1]) == 0
    ensures Walk(g, r, p) == 0
    ensures t + 1 < |p| ==> Walk(g, r, Front(p)) == 0
  {
    DeadWalk(g, r, p, t + 1);
    if t + 1 < |p| {
      assert Front(p)[..t+1] == p[..t+1];
      DeadWalk(g, r, Front(p), t + 1);
    }
  }

  /** One search of the resolver: a step of the walk. */
  method Step(s: Store, d: nat, n: Name, ghost r: nat, ghost p: Path, ghost t: nat) returns (child: nat)
    requires s.Valid() && ValidName(n)
    requires t < |p| && p[t] == n && d in s.shape.place && d == Walk(GraphOf(s.shape.dirs), r, p[..t])
    ensures child == Walk(GraphOf(s.shape.dirs), r, p[..t+1])
    ensures child != 0 ==> child in s.shape.place && s.NodeId(child)
    ensures child == 0 ==>
              && Walk(GraphOf(s.shape.dirs), r, p) == 0
              && (t + 1 < |p| ==> Walk(GraphOf(s.shape.dirs), r, Front(p)) == 0)
  {
    hide Store.Ok, Forest, Struct;
    Basics(s.mem, s.shape, 0);
    ghost var g := GraphOf(s.shape.dirs);
    assert p[..t+1] == p[..t] + [p[t]];
    WalkStep(g, r, p[..t], p[t]);
    var found, id, _, _, k := FindEntry(s, d, n);
    StepMeans(s.mem, s.shape, d, n, found, id);
    child := if found then id else 0;
    if child == 0 { DeadEnd(g, r, p, t); }
  }

  /** `rozwiaz_sciezke` (psf.cpp:1817-1931). */
  method Resolve(s: Store, path: CString, wantParent: bool) returns (id: nat, name: Name)
    requires s.Valid()
    ensures !wantParent ==> id == Lookup(s, path)
    ensures wantParent ==> id == LookupParent(s, path)
    ensures wantParent && id != 0 ==> name == Last(PathOf(path))
  {
    hide Store.Ok, Forest, Struct;
    id, name := 0, [];
    var safe := CheckPath(path);
    if !safe { return; }
    if |path| == 1 {
      return if wantParent then 0 else s.geo.root, [];
    }
    id, name := Descend(s, path, wantParent);
  }

  /** The segment loop of the resolver. */
  method Descend(s: Store, path: CString, wantParent: bool) returns (id: nat, name: Name)
    requires s.Valid() && |path| > 1 && path[0] == SLASH
    ensures var p: Path := Split(path[1..]);
            var g := GraphOf(s.shape.dirs);
            if wantParent then
              var d := Walk(g, s.geo.root, Front(p));
              id == (if ValidName(Last(p)) && d in s.shape.dirs then d else 0) && (id != 0 ==> name == Last(p))
            else
              id == Walk(g, s.geo.root, p)
  {
    hide Store.Ok, Forest, Struct;
    Basics(s.mem, s.shape, 0);
    id, name := 0, [];
    ghost var g := GraphOf(s.shape.dirs);
    ghost var segs: Path := Split(path[1..]);
    var current := s.geo.root;
    var i := 1;
    ghost var t := 0;
    while i < |path|
      invariant 1 <= i <= |path| && t < |segs|
      invariant Split(path[i..]) == segs[t..]
      invariant current in s.shape.place && s.NodeId(current)
      invariant current == Walk(g, s.geo.root, segs[..t])
      decreases |path| - i
    {
      var ok, segment, last, next := NextSegment(path, i);
      assert Split(path[i..])[0] == segs[t];
      if !ok {
        BadSegment(s.mem, s.shape, s.geo.root, segs, t);
        return;
      }
      assert last <==> t + 1 == |segs|;
      if last && wantParent {
        assert IsDir(s.mem, current) <==> current in s.shape.dirs;
        assert Front(segs) == segs[..t];
        if s.NodeAt(current).kind != Dir { return; }
        return current, segment;
      }
      var child := Step(s, current, segment, s.geo.root, segs, t);
      if child == 0 { return; }
      if last {
        assert segs[..t+1] == segs;
        return child, [];
      }
      assert IsDir(s.mem, child) <==> child in s.shape.dirs;
      if s.NodeAt(child).kind != Dir {
        NotThroughFile(s.mem, s.shape, s.geo.root, segs, t + 1);
        return;
      }
      current, i, t := child, next, t + 1;
    }
    assert segs[t] == segs[t..][0] == [];
    BadSegment(s.mem, s.shape, s.geo.root, segs, t);
  }

  lemma BadSegment(m: Mem, s: Shape, r: nat, p: Path, t: nat)
    requires Sound(m, s, 0) && t < |p| && !ValidName(p[t])
    ensures Walk(GraphOf(s.dirs), r, p) == 0
    ensures !ValidName(Last(p)) || Walk(GraphOf(s.dirs), r, Front(p)) !in s.dirs
  {
    var g := GraphOf(s.dirs);
    assert p[..t+1] == p[..t] + [p[t]];
    WalkStep(g, r, p[..t], p[t]);
    InvalidName(m, s, Walk(g, r, p[..t]), p[t]);
    DeadEnd(g, r, p, t);
  }

  lemma InvalidName(m: Mem, s: Shape, d: nat, n: Name)
    requires Sound(m, s, 0) && !ValidName(n)
    ensures d in GraphOf(s.dirs) ==> n !in GraphOf(s.dirs)[d]
  {
    if d in s.dirs { assert DirOk(m, d, s.dirs[d]); }
  }

  /** One search step of the resolver is one step of the walk. */
  lemma StepMeans(m: Mem, s: Shape, d: nat, n: Name, found: bool, child: nat)
    requires Sound(m, s, 0) && ValidName(n) && d in s.place
    requires found ==> IsDir(m, d) && child != 0 && exists k: nat, j: nat {:trigger EntryAt(m, d, k, j)} ::
             EntryAt(m, d, k, j) == Entry(child, n)
    requires !found ==> !IsDir(m, d) || !PtrsValid(m, d) || !Listed(m, d, n)
    ensures found <==> d in GraphOf(s.dirs) && n in GraphOf(s.dirs)[d]
    ensures found ==>
              GraphOf(s.dirs)[d][n] == child && child in s.place && 0 < child < |m.nodes| && m.nodes[child].kind != Free
  {
    OwnedPtrsValid(m, s.own, d);
    assert d in s.dirs <==> IsDir(m, d);
    if d in s.dirs {
      FoundIffNamed(m, d, s.dirs[d], n);
      assert EdgeOk(GraphOf(s.dirs), s.roots, s.place, d, n);
      if found {
        assert child in Live(m);
      }
    }
  }

  lemma NotThroughFile(m: Mem, s: Shape, r: nat, p: Path, t: nat)
    requires Sound(m, s, 0) && t < |p|
    requires Walk(GraphOf(s.dirs), r, p[..t]) !in s.dirs
    ensures Walk(GraphOf(s.dirs), r, p) == 0
    ensures t + 1 < |p| ==> Walk(GraphOf(s.dirs), r, Front(p)) !in s.dirs
    ensures t + 1 == |p| ==> Front(p) == p[..t]
  {
    var g := GraphOf(s.dirs);
    assert p[..t+1] == p[..t] + [p[t]];
    WalkStep(g, r, p[..t], p[t]);
    DeadWalk(g, r, p, t + 1);
    if t + 1 < |p| {
      assert Front(p)[..t+1] == p[..t+1];
      DeadWalk(g, r, Front(p), t + 1);
    }
  }
}
