// What a copy takes, counted on the user's tree: how deep, how many nodes, how many blocks (psf.cpp:2852, 2889-2960).
module BspCost {
  import opened BspTypes
  import opened BspPaths
  import opened BspForest
  import opened BspState
  import opened BspStore
  import opened BspDirectory
  import opened BspTree
  import opened BspEffects
  import opened BspFiles
  import opened BspPurge
  import opened BspExtend

  // ----- counting in a tree

  /** `all` is every path of the tree at or below `p`. */
  ghost predicate IsInside(v: Tree, p: Path, all: set<Path>) {
    forall a: Path :: a in all <==> a in v && p <= a
  }

  /** Every path at or below `p`. */
  ghost function Inside(v: Tree, p: Path): set<Path> {
    if exists all: set<Path> :: IsInside(v, p, all) then
      var all: set<Path> :| IsInside(v, p, all);
      all
    else {}
  }

  /** The paths one name below `p`. */
  ghost function Children(v: Tree, p: Path): set<Path> {
    set a | a in Inside(v, p) && |a| == |p| + 1
  }

  /** Blocks of 4096 bytes for a file, of 64 entries for a folder. */
  ghost function BlocksAt(v: Tree, p: Path): nat {
    if p !in v then 0
    else match v[p]
      case FileItem(bytes) => (|bytes| + 4095) / 4096
      case DirItem => (|Children(v, p)| + 63) / 64
  }

  ghost function BlocksOf(v: Tree, paths: set<Path>): nat {
    if paths == {} then 0
    else
      var p :| p in paths;
      BlocksAt(v, p) + BlocksOf(v, paths - {p})
  }

  lemma {:induction false} BlocksTake(v: Tree, paths: set<Path>, p: Path)
    requires p in paths
    ensures BlocksOf(v, paths) == BlocksAt(v, p) + BlocksOf(v, paths - {p})
  {
    hide BlocksAt;
    var q :| q in paths && BlocksOf(v, paths) == BlocksAt(v, q) + BlocksOf(v, paths - {q});
    if q != p {
      BlocksTake(v, paths - {q}, p);
      BlocksTake(v, paths - {p}, q);
      assert paths - {q} - {p} == paths - {p} - {q};
    }
  }

  lemma {:induction false} BlocksUnion(v: Tree, a: set<Path>, b: set<Path>)
    requires a !! b
    ensures BlocksOf(v, a + b) == BlocksOf(v, a) + BlocksOf(v, b)
  {
    hide BlocksAt;
    if a == {} {
      assert a + b == b;
    } else {
      var p :| p in a;
      BlocksTake(v, a, p);
      BlocksTake(v, a + b, p);
      BlocksUnion(v, a - {p}, b);
      assert a + b - {p} == (a - {p}) + b;
    }
  }

  lemma OnlyInside(v: Tree, p: Path, all: set<Path>)
    requires IsInside(v, p, all)
    ensures Inside(v, p) == all
  {
  }

  // ----- the tree of a sound memory

  /** A tree is finite: its paths are the places of nodes. */
  lemma InsideHolds(m: Mem, s: Shape, root: nat, p: Path)
    requires Sound(m, s, 0) && root in s.roots
    ensures IsInside(TreeAt(m, s.dirs, root), p, Inside(TreeAt(m, s.dirs, root), p))
  {
    hide Sound, TreeAt, Walk;
    var v := TreeAt(m, s.dirs, root);
    var all := set y | y in s.place && s.place[y].root == root && p <= s.place[y].path :: s.place[y].path;
    forall a: Path ensures a in all <==> a in v && p <= a {
      TreeHasPlaces(m, s, 0, root, a);
      if a in all {
        var y :| y in s.place && s.place[y].root == root && s.place[y].path == a;
        assert s.place[y] == Place(root, a);
      }
    }
    assert IsInside(v, p, all);
  }

  /** What is inside a folder: itself, and what is inside its children. */
  lemma InsideDir(m: Mem, s: Shape, root: nat, x: nat, a: Path)
    requires Sound(m, s, 0) && root in s.roots && x in s.dirs && x in s.place && s.place[x].root == root
    ensures a in TreeAt(m, s.dirs, root) && s.place[x].path <= a <==>
            a == s.place[x].path || (a in TreeAt(m, s.dirs, root)
                                     && exists n <- s.dirs[x] :: s.place[x].path + [n] <= a)
  {
    hide Sound, TreeAt, Walk;
    var p := s.place[x].path;
    assert s.place[x] == Place(root, p);
    TreeHasPlaces(m, s, 0, root, p);
    TreeHasPlaces(m, s, 0, root, a);
    if a in TreeAt(m, s.dirs, root) && p <= a && a != p {
      var y :| y in s.place && s.place[y] == Place(root, a);
      BelowSomeChild(m, s, 0, x, y);
      var n :| n in s.dirs[x] && InSubtree(s.place, s.dirs[x][n].id, y);
      ChildPlace(m, s, x, n);
    }
    if exists n <- s.dirs[x] :: p + [n] <= a {
      var n :| n in s.dirs[x] && p + [n] <= a;
      assert p <= p + [n];
    }
  }

  lemma ChildPlace(m: Mem, s: Shape, x: nat, n: Name)
    requires Sound(m, s, 0) && x in s.dirs && n in s.dirs[x]
    ensures x in s.place && s.dirs[x][n].id in s.place
    ensures s.place[s.dirs[x][n].id] == Place(s.place[x].root, s.place[x].path + [n])
  {
    EdgePlace(GraphOf(s.dirs), s.roots, s.place, x, n);
  }

  /** A folder has as many children in the tree as names. */
  lemma ChildrenNumber(m: Mem, s: Shape, root: nat, x: nat)
    requires Sound(m, s, 0) && root in s.roots && x in s.dirs && x in s.place && s.place[x].root == root
    ensures |Children(TreeAt(m, s.dirs, root), s.place[x].path)| == |s.dirs[x]|
  {
    hide Sound, TreeAt, Walk, Inside;
    var v, p, names := TreeAt(m, s.dirs, root), s.place[x].path, s.dirs[x];
    InsideHolds(m, s, root, p);
    forall a: Path ensures a in Children(v, p) <==> exists n <- names :: a == p + [n] {
      InsideDir(m, s, root, x, a);
      if a in Children(v, p) {
        var n :| n in names && p + [n] <= a;
        assert a == p + [n];
      }
      if exists n <- names :: a == p + [n] {
        var n :| n in names && a == p + [n];
        ChildPlace(m, s, x, n);
        TreeHasPlaces(m, s, 0, root, a);
        assert s.place[s.dirs[x][n].id] == Place(root, a);
      }
    }
    hide *;
    Extended(names.Keys, p, Children(v, p));
  }

  lemma {:induction false} Extended(names: set<Name>, p: Path, all: set<Path>)
    requires forall a: Path :: a in all <==> exists n <- names :: a == p + [n]
    ensures |all| == |names|
  {
    if names == {} {
      assert all == {};
    } else {
      var n :| n in names;
      forall a: Path ensures a in all - {p + [n]} <==> exists q <- names - {n} :: a == p + [q] {
        if a in all - {p + [n]} {
          var q :| q in names && a == p + [q];
          assert q in names - {n};
        }
        if exists q <- names - {n} :: a == p + [q] {
          var q :| q in names - {n} && a == p + [q];
          assert a[|p|] == q;
        }
      }
      Extended(names - {n}, p, all - {p + [n]});
    }
  }

  // ----- the copier's own count is this count

  /** What lies at or below a child of `x` whose slot does not come before (k, j). */
  ghost function Rest(v: Tree, s: Shape, x: nat, k: nat, j: nat): set<Path>
    requires x in s.place && x in s.dirs
  {
    set a | a in Inside(v, s.place[x].path) && StillAhead(s, x, k, j, a)
  }

  ghost predicate StillAhead(s: Shape, x: nat, k: nat, j: nat, a: Path)
    requires x in s.place && x in s.dirs
  {
    exists n <- s.dirs[x] :: !Before(s.dirs[x][n].k, s.dirs[x][n].j, k, j) && s.place[x].path + [n] <= a
  }

  /** `c` is what the paths cost, `deep` names above them, in a copy that begins at depth 0. */
  ghost predicate Counts(c: Cost, v: Tree, paths: set<Path>, deep: int) {
    && (c.fits <==> forall a <- paths :: |a| < 32 + deep)
    && (c.fits ==> c.nodes == |paths| && c.blocks == BlocksOf(v, paths))
  }

  lemma CountsTogether(c: Cost, a: set<Path>, d: Cost, b: set<Path>, v: Tree, deep: int)
    requires Counts(c, v, a, deep) && Counts(d, v, b, deep) && a !! b
    ensures Counts(Plus(c, d), v, a + b, deep)
  {
    hide BlocksOf;
    BlocksUnion(v, a, b);
  }

  lemma CountsOne(v: Tree, a: Path, deep: int)
    requires |a| < 32 + deep
    ensures Counts(Cost(1, BlocksAt(v, a), true), v, {a}, deep)
  {
    hide BlocksAt;
    BlocksTake(v, {a}, a);
    assert {a} - {a} == {};
  }

  lemma {:induction false} CostCounts(m: Mem, s: Shape, root: nat, x: nat, depth: nat)
    requires Sound(m, s, 0) && root in s.roots && x in s.place && s.place[x].root == root
    ensures var v, p := TreeAt(m, s.dirs, root), s.place[x].path;
            Counts(CopyCost(m, x, depth), v, Inside(v, p), |p| - depth)
    decreases COPY_DEPTH - depth, PTRS_PER_NODE + 1, 0
  {
    hide Sound, TreeAt, Inside, Counts, EntriesCost, BlocksAt;
    var v, p := TreeAt(m, s.dirs, root), s.place[x].path;
    SelfInside(m, s, root, x);
    LiveNode(m, s, x);
    if depth >= COPY_DEPTH {
      CountsNot(v, Inside(v, p), p, |p| - depth);
    } else if m.nodes[x].kind == File {
      FileCounts(m, s, root, x);
      CountsOne(v, p, |p| - depth);
    } else {
      EntriesCount(m, s, root, x, depth, 0, 0);
      DirCounts(m, s, root, x);
      CountsOne(v, p, |p| - depth);
      CountsTogether(Cost(1, BlocksAt(v, p), true), {p}, EntriesCost(m, x, depth, 0, 0), Rest(v, s, x, 0, 0), v,
        |p| - depth);
    }
  }

  lemma CountsNot(v: Tree, paths: set<Path>, p: Path, deep: int)
    requires p in paths && |p| >= 32 + deep
    ensures Counts(Cost(0, 0, false), v, paths, deep)
  {
  }

  lemma SelfInside(m: Mem, s: Shape, root: nat, x: nat)
    requires Sound(m, s, 0) && root in s.roots && x in s.place && s.place[x].root == root
    ensures var v, p := TreeAt(m, s.dirs, root), s.place[x].path; p in v && v[p] == ItemOf(m, x) && p in Inside(v, p)
  {
    hide Sound, TreeAt, Inside;
    assert s.place[x] == Place(root, s.place[x].path);
    TreeHasPlaces(m, s, 0, root, s.place[x].path);
    InsideHolds(m, s, root, s.place[x].path);
  }

  lemma LiveNode(m: Mem, s: Shape, x: nat)
    requires Sound(m, s, 0) && x in s.place
    ensures 0 < x < |m.nodes| && (m.nodes[x].kind == File || x in s.dirs) && (x in s.dirs <==> m.nodes[x].kind == Dir)
  {
    Basics(m, s, 0);
    assert x in s.dirs <==> IsDir(m, x);
  }

  lemma FileCounts(m: Mem, s: Shape, root: nat, x: nat)
    requires Sound(m, s, 0) && root in s.roots && x in s.place && s.place[x].root == root && IsFile(m, x)
    ensures var v, p := TreeAt(m, s.dirs, root), s.place[x].path;
            Inside(v, p) == {p} && BlocksAt(v, p) == CeilDiv(m.nodes[x].size, BLOCK_BYTES)
  {
    hide Sound, TreeAt, Inside;
    var v, p := TreeAt(m, s.dirs, root), s.place[x].path;
    SelfInside(m, s, root, x);
    InsideHolds(m, s, root, p);
    LiveNode(m, s, x);
    forall a: Path | a in v && p <= a ensures a == p {
      TreeHasPlaces(m, s, 0, root, a);
      var y :| y in s.place && s.place[y] == Place(root, a);
      if y != x { BelowSomeChild(m, s, 0, x, y); }
    }
    assert |FileBytes(m, x)| == m.nodes[x].size;
    RoundingUp(m.nodes[x].size);
  }

  lemma RoundingUp(a: nat)
    ensures CeilDiv(a, 4096) == (a + 4095) / 4096 && CeilDiv(a, 64) == (a + 63) / 64
  {
  }

  lemma DirCounts(m: Mem, s: Shape, root: nat, x: nat)
    requires Sound(m, s, 0) && root in s.roots && x in s.place && s.place[x].root == root && x in s.dirs
    ensures var v, p := TreeAt(m, s.dirs, root), s.place[x].path;
            && BlocksAt(v, p) == CeilDiv(m.nodes[x].size, ENTRIES_PER_BLOCK)
            && Inside(v, p) == {p} + Rest(v, s, x, 0, 0) && p !in Rest(v, s, x, 0, 0)
  {
    hide Sound, TreeAt, Inside, Children, Rest;
    var v, p := TreeAt(m, s.dirs, root), s.place[x].path;
    SelfInside(m, s, root, x);
    LiveNode(m, s, x);
    ChildrenNumber(m, s, root, x);
    SizeIsNames(m, s, x);
    RoundingUp(m.nodes[x].size);
    forall a: Path
      ensures a in Inside(v, p) <==> a in {p} + Rest(v, s, x, 0, 0)
      ensures p !in Rest(v, s, x, 0, 0)
    {
      RestAll(m, s, root, x, a);
      RestAll(m, s, root, x, p);
    }
  }

  lemma SizeIsNames(m: Mem, s: Shape, x: nat)
    requires Sound(m, s, 0) && x in s.dirs && x in s.place
    ensures x < |m.nodes| && m.nodes[x].size == |s.dirs[x]|
  {
    Basics(m, s, 0);
    hide Forest;
    assert DirOk(m, x, s.dirs[x]);
  }

  lemma RestAll(m: Mem, s: Shape, root: nat, x: nat, a: Path)
    requires Sound(m, s, 0) && root in s.roots && x in s.place && s.place[x].root == root && x in s.dirs
    ensures var v, p := TreeAt(m, s.dirs, root), s.place[x].path;
            && (a in Inside(v, p) <==> a == p || a in Rest(v, s, x, 0, 0))
            && p !in Rest(v, s, x, 0, 0)
  {
    hide Sound, TreeAt, Inside;
    var v, p := TreeAt(m, s.dirs, root), s.place[x].path;
    InsideHolds(m, s, root, p);
    InsideDir(m, s, root, x, a);
    if exists n <- s.dirs[x] :: p + [n] <= a {
      var n :| n in s.dirs[x] && p + [n] <= a;
      assert !Before(s.dirs[x][n].k, s.dirs[x][n].j, 0, 0);
    }
  }

  lemma {:induction false} EntriesCount(m: Mem, s: Shape, root: nat, x: nat, depth: nat, k: nat, j: nat)
    requires Sound(m, s, 0) && root in s.roots && x in s.place && s.place[x].root == root && x in s.dirs
    requires depth < COPY_DEPTH && k <= PTRS_PER_NODE && j <= ENTRIES_PER_BLOCK
    ensures var v, p := TreeAt(m, s.dirs, root), s.place[x].path;
            Counts(EntriesCost(m, x, depth, k, j), v, Rest(v, s, x, k, j), |p| - depth)
    decreases COPY_DEPTH - depth, PTRS_PER_NODE - k, ENTRIES_PER_BLOCK - j
  {
    hide Sound, TreeAt, Counts, CopyCost, Rest, Inside;
    var v, p := TreeAt(m, s.dirs, root), s.place[x].path;
    if k == PTRS_PER_NODE {
      RestNone(m, s, v, x, j);
      CountsNothing(v, |p| - depth);
    } else if j == ENTRIES_PER_BLOCK {
      RestRow(m, s, v, x, k);
      EntriesCount(m, s, root, x, depth, k + 1, 0);
    } else if EntryAt(m, x, k, j).id == 0 {
      RestSkips(m, s, v, x, k, j);
      EntriesCount(m, s, root, x, depth, k, j + 1);
    } else {
      EntriesCount(m, s, root, x, depth, k, j + 1);
      ZeroNoDir(m, s);
      var n := SlotName(m, s, 0, x, k, j);
      var c := EntryAt(m, x, k, j).id;
      ChildPlace(m, s, x, n);
      CostCounts(m, s, root, c, depth + 1);
      RestSplits(m, s, root, x, k, j, n);
      CountsTogether(CopyCost(m, c, depth + 1), Inside(v, p + [n]), EntriesCost(m, x, depth, k, j + 1),
        Rest(v, s, x, k, j + 1), v, |p| - depth);
    }
  }

  lemma ZeroNoDir(m: Mem, s: Shape)
    requires Sound(m, s, 0)
    ensures 0 !in s.dirs
  {
    Basics(m, s, 0);
  }

  lemma CountsNothing(v: Tree, deep: int)
    ensures Counts(NOTHING, v, {}, deep)
  {
  }

  lemma RestNone(m: Mem, s: Shape, v: Tree, x: nat, j: nat)
    requires Sound(m, s, 0) && x in s.place && x in s.dirs
    ensures Rest(v, s, x, PTRS_PER_NODE, j) == {}
  {
    ZeroNoDir(m, s);
    hide Sound, Inside;
    forall n <- s.dirs[x] ensures Before(s.dirs[x][n].k, s.dirs[x][n].j, PTRS_PER_NODE, j) { SlotRange(m, s, 0, x, n); }
  }

  lemma RestRow(m: Mem, s: Shape, v: Tree, x: nat, k: nat)
    requires Sound(m, s, 0) && x in s.place && x in s.dirs
    ensures Rest(v, s, x, k, ENTRIES_PER_BLOCK) == Rest(v, s, x, k + 1, 0)
  {
    ZeroNoDir(m, s);
    hide Sound, Inside;
    forall n <- s.dirs[x]
      ensures Before(s.dirs[x][n].k, s.dirs[x][n].j, k, ENTRIES_PER_BLOCK)
          <==> Before(s.dirs[x][n].k, s.dirs[x][n].j, k + 1, 0)
    {
      SlotRange(m, s, 0, x, n);
    }
  }

  lemma RestSkips(m: Mem, s: Shape, v: Tree, x: nat, k: nat, j: nat)
    requires Sound(m, s, 0) && x in s.place && x in s.dirs && EntryAt(m, x, k, j).id == 0
    ensures Rest(v, s, x, k, j) == Rest(v, s, x, k, j + 1)
  {
    ZeroNoDir(m, s);
    hide Inside;
    assert DirOk(m, x, s.dirs[x]);
    hide Sound;
    forall n <- s.dirs[x]
      ensures Before(s.dirs[x][n].k, s.dirs[x][n].j, k, j) <==> Before(s.dirs[x][n].k, s.dirs[x][n].j, k, j + 1)
    {
      assert EntryAt(m, x, s.dirs[x][n].k, s.dirs[x][n].j) == Entry(s.dirs[x][n].id, n);
    }
  }

  lemma RestSplits(m: Mem, s: Shape, root: nat, x: nat, k: nat, j: nat, n: Name)
    requires Sound(m, s, 0) && root in s.roots && x in s.place && s.place[x].root == root && x in s.dirs
    requires n in s.dirs[x] && s.dirs[x][n].k == k && s.dirs[x][n].j == j
    ensures var v, p := TreeAt(m, s.dirs, root), s.place[x].path;
            && Rest(v, s, x, k, j) == Inside(v, p + [n]) + Rest(v, s, x, k, j + 1)
            && Inside(v, p + [n]) !! Rest(v, s, x, k, j + 1)
  {
    hide Sound, TreeAt, Inside;
    ZeroNoDir(m, s);
    var v, p := TreeAt(m, s.dirs, root), s.place[x].path;
    InsideHolds(m, s, root, p);
    InsideHolds(m, s, root, p + [n]);
    forall a: Path
      ensures a in Rest(v, s, x, k, j) <==> a in Inside(v, p + [n]) || a in Rest(v, s, x, k, j + 1)
      ensures !(a in Inside(v, p + [n]) && a in Rest(v, s, x, k, j + 1))
    {
      assert p <= p + [n];
      if p + [n] <= a { assert !Before(s.dirs[x][n].k, s.dirs[x][n].j, k, j); }
      if StillAhead(s, x, k, j, a) {
        var q :| q in s.dirs[x] && !Before(s.dirs[x][q].k, s.dirs[x][q].j, k, j) && p + [q] <= a;
        if s.dirs[x][q].k == k && s.dirs[x][q].j == j { OneNamePerSlot(m, s, 0, x, n, q); }
      }
      if StillAhead(s, x, k, j + 1, a) {
        var q :| q in s.dirs[x] && !Before(s.dirs[x][q].k, s.dirs[x][q].j, k, j + 1) && p + [q] <= a;
        assert !Before(s.dirs[x][q].k, s.dirs[x][q].j, k, j);
        NextNames(p, n, q, a);
      }
    }
  }

  lemma NextNames(p: Path, n: Name, q: Name, a: Path)
    ensures p + [n] <= a && p + [q] <= a ==> n == q
  {
    if p + [n] <= a && p + [q] <= a {
      assert a[|p|] == (p + [n])[|p|];
      assert a[|p|] == (p + [q])[|p|];
    }
  }

  // ----- room for one more entry, counted on the tree

  /** The pointers of `d` in use. */
  ghost function BlocksHeld(m: Mem, d: nat): set<nat> {
    set k: nat | k < 490 && PtrAt(m, d, k) != NO_BLOCK
  }

  ghost function SlotsHeld(ks: set<nat>): set<(nat, nat)> {
    set k: nat, j: nat | k in ks && j < ENTRIES_PER_BLOCK :: (k, j)
  }

  ghost function SlotsTaken(names: map<Name, Slot>): set<(nat, nat)> {
    set n | n in names :: (names[n].k, names[n].j)
  }

  ghost predicate SlotLeft(m: Mem, d: nat) {
    exists k: nat, j: nat {:trigger EntryAt(m, d, k, j)} ::
      PtrAt(m, d, k) != NO_BLOCK && j < ENTRIES_PER_BLOCK && EntryAt(m, d, k, j).id == 0
  }

  ghost predicate PtrLeft(m: Mem, d: nat) {
    exists k: nat {:trigger PtrAt(m, d, k)} :: k < PTRS_PER_NODE && PtrAt(m, d, k) == NO_BLOCK
  }

  lemma RoomByParts(m: Mem, d: nat)
    ensures Room(m, d) <==> SlotLeft(m, d) || (PtrLeft(m, d) && !AllUsed(m))
  {
    hide PtrAt, EntryAt, AllUsed;
  }

  /** A folder takes another entry exactly when it has fewer children than 64 for each block it holds, or when it may
      have another block and one is free. */
  lemma RoomCounts(m: Mem, s: Shape, root: nat, d: nat)
    requires Rooted(m, s, root) && d in s.dirs
    ensures d in s.place
    ensures var children, held := |Children(TreeAt(m, s.dirs, root), s.place[d].path)|, |BlocksHeld(m, d)|;
            && children <= 64 * held
            && (Room(m, d) <==> children < 64 * held || (held < 490 && exists b :: 0 <= b < |m.used| && !m.used[b]))
  {
    InPlace(m, s, d);
    ChildrenNumber(m, s, root, d);
    PartsCount(m, d, s.dirs[d]);
    RoomByParts(m, d);
    hide Rooted, TreeAt, Children, DirOk, Sized, Room, SlotLeft, PtrLeft, BlocksHeld;
  }

  lemma InPlace(m: Mem, s: Shape, d: nat)
    requires Sound(m, s, 0) && d in s.dirs
    ensures d in s.place && s.place[d].root in s.roots && Sized(m) && DirOk(m, d, s.dirs[d])
  {
    Basics(m, s, 0);
    RootOf(m, s, 0, d);
  }

  lemma PartsCount(m: Mem, d: nat, names: map<Name, Slot>)
    requires Sized(m) && DirOk(m, d, names)
    ensures |names| <= 64 * |BlocksHeld(m, d)|
    ensures SlotLeft(m, d) <==> |names| < 64 * |BlocksHeld(m, d)|
    ensures PtrLeft(m, d) <==> |BlocksHeld(m, d)| < 490
  {
    SlotNumber(BlocksHeld(m, d));
    TakenNumber(m, d, names);
    HeldBound(m, d);
    hide DirOk, Sized, BlocksHeld, PtrLeft, SlotLeft, SlotsHeld, SlotsTaken;
    var held, taken := SlotsHeld(BlocksHeld(m, d)), SlotsTaken(names);
    Subset(taken, held);
    if taken == held { NoSlotLeft(m, d, names); } else { ASlotLeft(m, d, names); }
  }

  lemma {:induction false} SlotNumber(ks: set<nat>)
    ensures |SlotsHeld(ks)| == 64 * |ks|
  {
    if ks == {} {
      assert SlotsHeld(ks) == {};
    } else {
      var k :| k in ks;
      SlotNumber(ks - {k});
      RowNumber(k, 64);
      var row := set j: nat | j < 64 :: (k, j);
      assert SlotsHeld(ks) == SlotsHeld(ks - {k}) + row;
      assert SlotsHeld(ks - {k}) !! row;
    }
  }

  lemma {:induction false} RowNumber(k: nat, count: nat)
    ensures |set j: nat | j < count :: (k, j)| == count
  {
    if count == 0 {
      assert (set j: nat | j < count :: (k, j)) == {};
    } else {
      RowNumber(k, count - 1);
      assert (set j: nat | j < count :: (k, j)) == (set j: nat | j < count - 1 :: (k, j)) + {(k, count - 1)};
    }
  }

  /** Each name has a slot of its own, in a block the folder holds. */
  lemma TakenNumber(m: Mem, d: nat, names: map<Name, Slot>)
    requires Sized(m) && DirOk(m, d, names)
    ensures |SlotsTaken(names)| == |names| && SlotsTaken(names) <= SlotsHeld(BlocksHeld(m, d))
  {
    forall n <- names ensures (names[n].k, names[n].j) in SlotsHeld(BlocksHeld(m, d)) {
      assert EntryAt(m, d, names[n].k, names[n].j).id != 0;
    }
    forall n <- names, q <- names | names[n].k == names[q].k && names[n].j == names[q].j ensures n == q {
      assert EntryAt(m, d, names[n].k, names[n].j).name == n;
    }
    hide DirOk, Sized;
    OneEach(names, names.Keys);
  }

  lemma {:induction false} OneEach(names: map<Name, Slot>, some: set<Name>)
    requires some <= names.Keys
    requires forall n <- names, q <- names :: names[n].k == names[q].k && names[n].j == names[q].j ==> n == q
    ensures |set n | n in some :: (names[n].k, names[n].j)| == |some|
  {
    if some != {} {
      var n :| n in some;
      var rest := some - {n};
      OneEach(names, rest);
      assert (set q | q in some :: (names[q].k, names[q].j))
          == (set q | q in rest :: (names[q].k, names[q].j)) + {(names[n].k, names[n].j)};
      assert (names[n].k, names[n].j) !in (set q | q in rest :: (names[q].k, names[q].j));
    }
  }

  /** All pointers are in use, or one is left. */
  lemma HeldBound(m: Mem, d: nat)
    requires Sized(m)
    ensures PtrLeft(m, d) <==> |BlocksHeld(m, d)| < 490
  {
    hide Sized, PtrAt;
    var held := BlocksHeld(m, d);
    FewerThan(held, 490);
    if |held| < 490 {
      var k: nat :| k < 490 && k !in held;
      assert PtrAt(m, d, k) == NO_BLOCK;
    }
    if PtrLeft(m, d) {
      var k: nat :| k < PTRS_PER_NODE && PtrAt(m, d, k) == NO_BLOCK;
      assert k !in held;
    }
  }

  lemma FewerThan(some: set<nat>, bound: nat)
    requires forall k <- some :: k < bound
    ensures |some| < bound <==> exists k: nat :: k < bound && k !in some
  {
    BelowSize(bound);
    if exists k: nat :: k < bound && k !in some {
      var k: nat :| k < bound && k !in some;
      Subset(some, Below(bound) - {k});
    } else {
      assert some == Below(bound);
    }
  }

  lemma NoSlotLeft(m: Mem, d: nat, names: map<Name, Slot>)
    requires Sized(m) && DirOk(m, d, names) && SlotsTaken(names) == SlotsHeld(BlocksHeld(m, d))
    ensures !SlotLeft(m, d)
  {
    forall k: nat, j: nat | PtrAt(m, d, k) != NO_BLOCK && j < ENTRIES_PER_BLOCK ensures EntryAt(m, d, k, j).id != 0 {
      assert (k, j) in SlotsHeld(BlocksHeld(m, d));
      var n :| n in names && (names[n].k, names[n].j) == (k, j);
      assert EntryAt(m, d, names[n].k, names[n].j) == Entry(names[n].id, n);
    }
  }

  lemma ASlotLeft(m: Mem, d: nat, names: map<Name, Slot>)
    requires Sized(m) && DirOk(m, d, names)
    requires SlotsTaken(names) <= SlotsHeld(BlocksHeld(m, d)) && SlotsTaken(names) != SlotsHeld(BlocksHeld(m, d))
    ensures |SlotsTaken(names)| < |SlotsHeld(BlocksHeld(m, d))|
    ensures SlotLeft(m, d)
  {
    hide Sized, DirOk, SlotsTaken, PtrAt, EntryAt;
    var held, taken := SlotsHeld(BlocksHeld(m, d)), SlotsTaken(names);
    var t :| t in held && t !in taken;
    Subset(taken, held - {t});
    EntryIsTaken(m, d, names, t.0, t.1);
    assert EntryAt(m, d, t.0, t.1).id == 0;
  }

  lemma EntryIsTaken(m: Mem, d: nat, names: map<Name, Slot>, k: nat, j: nat)
    requires DirOk(m, d, names)
    ensures EntryAt(m, d, k, j).id != 0 ==> (k, j) in SlotsTaken(names)
  {
    var e := EntryAt(m, d, k, j);
    assert e.id != 0 ==> e.name in names && names[e.name] == Slot(k, j, e.id);
  }
}
