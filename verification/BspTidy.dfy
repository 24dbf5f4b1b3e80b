// When a memory is a file system: what must be true of nodes, entries and blocks alone, without any bookkeeping,
// for it to be one tree under its root, and that the tree is then the only one (psf.cpp:996-1251, 2084-2375).
module BspTidy {
  import opened BspTypes
  import opened BspPaths
  import opened BspForest
  import opened BspState
  import opened BspTree
  import opened BspEffects
  import opened BspDirectory
  import opened BspFiles
  import opened BspPurge
  import opened BspValidate

  // ----- what every reachable memory keeps, said of nodes, entries and blocks alone

  /** Slot (k, j) of directory `d` names `x`. */
  ghost predicate Names(m: Mem, d: nat, k: nat, j: nat, x: nat) {
    IsDir(m, d) && x != 0 && EntryAt(m, d, k, j).id == x
  }

  /** A chain of entries leads from the root to `x` along `p`. */
  ghost predicate Reached(m: Mem, root: nat, p: Path, x: nat) {
    if p == [] then x == root
    else exists d: nat, k: nat, j: nat {:trigger EntryAt(m, d, k, j)} ::
      Names(m, d, k, j, x) && EntryAt(m, d, k, j).name == p[|p|-1] && Reached(m, root, p[..|p|-1], d)
  }

  ghost predicate IsLive(m: Mem, x: nat) { 0 < x < |m.nodes| && m.nodes[x].kind != Free }

  /** A live node has one entry, in one directory, and is reached from the root; the root has none. */
  ghost predicate OneEntry(m: Mem, root: nat, x: nat) {
    IsLive(m, x) ==>
      && (x == root ==> forall d: nat, k: nat, j: nat {:trigger Names(m, d, k, j, x)} :: !Names(m, d, k, j, x))
      && (x != root ==>
            && (exists d: nat, k: nat, j: nat {:trigger Names(m, d, k, j, x)} :: Names(m, d, k, j, x))
            && (forall d: nat, k: nat, j: nat, c: nat, l: nat,
                h: nat {:trigger Names(m, d, k, j, x), Names(m, c, l, h, x)} ::
                  Names(m, d, k, j, x) && Names(m, c, l, h, x) ==> d == c && k == l && j == h))
      && exists p: Path :: Reached(m, root, p, x)
  }

  /** A bit is set exactly when one pointer of one live node holds the block; nothing is shared or lost. */
  ghost predicate OneOwner(m: Mem, b: nat) {
    b < |m.used| ==>
      && (m.used[b] <==> exists i: nat, k: nat {:trigger PtrAt(m, i, k)} :: IsLive(m, i) && PtrAt(m, i, k) == b)
      && (forall i: nat, k: nat, c: nat, l: nat {:trigger PtrAt(m, i, k), PtrAt(m, c, l)} ::
            PtrAt(m, i, k) == b && PtrAt(m, c, l) == b ==> i == c && k == l)
  }

  ghost predicate Tidy(m: Mem, root: nat) {
    && IsDir(m, root)
    && (forall x: nat {:trigger OneEntry(m, root, x)} :: OneEntry(m, root, x))
    && (forall b: nat {:trigger OneOwner(m, b)} :: OneOwner(m, b))
    && (forall d: nat, k: nat, j: nat, x: nat {:trigger Names(m, d, k, j, x)} :: Names(m, d, k, j, x) ==> IsLive(m, x))
    && (forall i: nat, k: nat {:trigger PtrAt(m, i, k)} :: PtrAt(m, i, k) != NO_BLOCK ==> PtrAt(m, i, k) < |m.used|)
  }

  lemma NamesMeans(m: Mem, s: Shape, d: nat, k: nat, j: nat, x: nat)
    requires Sound(m, s, 0) && Names(m, d, k, j, x)
    ensures d in s.dirs && EntryAt(m, d, k, j).name in s.dirs[d] && s.dirs[d][EntryAt(m, d, k, j).name] == Slot(k, j, x)
    ensures x in s.place && x !in s.roots && IsLive(m, x)
  {
    Basics(m, s, 0);
    assert d in s.dirs <==> IsDir(m, d);
    assert DirOk(m, d, s.dirs[d]);
    EdgePlace(GraphOf(s.dirs), s.roots, s.place, d, EntryAt(m, d, k, j).name);
  }

  lemma OneSlot(m: Mem, s: Shape, d: nat, k: nat, j: nat, c: nat, l: nat, h: nat, x: nat)
    requires Sound(m, s, 0) && Names(m, d, k, j, x) && Names(m, c, l, h, x)
    ensures d == c && k == l && j == h
  {
    hide Struct, Forest, Names, EntryAt;
    NamesMeans(m, s, d, k, j, x);
    NamesMeans(m, s, c, l, h, x);
    OneParent(GraphOf(s.dirs), s.roots, s.place, d, EntryAt(m, d, k, j).name, c, EntryAt(m, c, l, h).name);
  }

  lemma HasSlot(m: Mem, s: Shape, x: nat) returns (d: nat, k: nat, j: nat)
    requires Sound(m, s, 0) && x in s.place && x !in s.roots
    ensures Names(m, d, k, j, x) && d in s.place
            && s.place[x] == Place(s.place[d].root, s.place[d].path + [EntryAt(m, d, k, j).name])
  {
    Basics(m, s, 0);
    var n: Name;
    d, n := ParentOf(GraphOf(s.dirs), s.roots, s.place, x);
    assert d in s.dirs <==> IsDir(m, d);
    assert DirOk(m, d, s.dirs[d]);
    k, j := s.dirs[d][n].k, s.dirs[d][n].j;
    assert EntryAt(m, d, k, j) == Entry(x, n);
  }

  lemma {:induction false} PlaceReached(m: Mem, s: Shape, x: nat)
    requires Sound(m, s, 0) && x in s.place
    ensures Reached(m, s.place[x].root, s.place[x].path, x)
    decreases |s.place[x].path|
  {
    hide Struct, Forest, Names, EntryAt;
    RootIffEmpty(GraphOf(s.dirs), s.roots, s.place, x);
    if x !in s.roots {
      var d, k, j := HasSlot(m, s, x);
      PlaceReached(m, s, d);
      var p := s.place[d].path;
      assert (p + [EntryAt(m, d, k, j).name])[..|p|] == p;
    }
  }

  lemma SoundOneEntry(m: Mem, s: Shape, root: nat, x: nat)
    requires Rooted(m, s, root)
    ensures OneEntry(m, root, x)
  {
    hide Struct, Forest, Names, EntryAt, Reached;
    if IsLive(m, x) {
      assert x in Live(m);
      RootOf(m, s, 0, x);
      PlaceReached(m, s, x);
      if x == root {
        forall d: nat, k: nat, j: nat ensures !Names(m, d, k, j, x) {
          if Names(m, d, k, j, x) { NamesMeans(m, s, d, k, j, x); }
        }
      } else {
        var d, k, j := HasSlot(m, s, x);
        forall d: nat, k: nat, j: nat, c: nat, l: nat, h: nat | Names(m, d, k, j, x) && Names(m, c, l, h, x)
          ensures d == c && k == l && j == h
        {
          OneSlot(m, s, d, k, j, c, l, h, x);
        }
      }
    }
  }

  lemma SoundOneOwner(m: Mem, own: map<nat, Owner>, b: nat)
    requires Sized(m) && Owned(m, own)
    ensures OneOwner(m, b)
  {
    if b < |m.used| && m.used[b] {
      assert PtrAt(m, own[b].node, own[b].k) == b;
      assert IsLive(m, own[b].node);
    }
  }

  /** Every sound file system is tidy, whatever ghost bookkeeping witnesses it. */
  lemma RootedTidy(m: Mem, s: Shape, root: nat)
    requires Rooted(m, s, root)
    ensures Tidy(m, root)
  {
    hide Struct, Forest, Names, OneEntry, OneOwner, IsLive, PtrAt;
    Basics(m, s, 0);
    assert root in s.dirs <==> IsDir(m, root);
    forall x: nat ensures OneEntry(m, root, x) { SoundOneEntry(m, s, root, x); }
    BlocksTidy(m, s);
    forall d: nat, k: nat, j: nat, x: nat | Names(m, d, k, j, x) ensures IsLive(m, x) { NamesMeans(m, s, d, k, j, x); }
  }

  lemma BlocksTidy(m: Mem, s: Shape)
    requires Sound(m, s, 0)
    ensures forall b: nat {:trigger OneOwner(m, b)} :: OneOwner(m, b)
    ensures forall i: nat, k: nat {:trigger PtrAt(m, i, k)} :: PtrAt(m, i, k) != NO_BLOCK ==> PtrAt(m, i, k) < |m.used|
  {
    forall b: nat ensures OneOwner(m, b) { hide OneOwner, Owned, Sized; SoundOneOwner(m, s.own, b); }
    hide Forest;
  }

  // ----- and the other way round: from the memory to the tree

  /** No pointer of a directory follows an empty one. */
  ghost predicate NoGap(m: Mem, d: nat) {
    forall k: nat, l: nat {:trigger PtrAt(m, d, k), PtrAt(m, d, l)} ::
      k < l && PtrAt(m, d, k) == NO_BLOCK ==> PtrAt(m, d, l) == NO_BLOCK
  }

  /** A file has no pointer beyond its size, and its blocks hold bytes. */
  ghost predicate NothingBeyond(m: Mem, f: nat)
    requires f < |m.nodes|
  {
    forall k: nat {:trigger PtrAt(m, f, k)} ::
      && (k * BLOCK_BYTES >= m.nodes[f].size ==> PtrAt(m, f, k) == NO_BLOCK)
      && (PtrAt(m, f, k) < |m.blocks| ==> m.blocks[PtrAt(m, f, k)].Bytes?)
  }

  /** What is not in use is cleared, and nothing is kept beyond what the sizes say. */
  ghost predicate Clear(m: Mem) {
    && (forall i | 0 <= i < |m.nodes| && m.nodes[i].kind == Free :: m.nodes[i] == FREE_NODE)
    && (forall b | 0 <= b < |m.used| && b < |m.blocks| && !m.used[b] :: m.blocks[b] == Blank)
    && (forall d: nat {:trigger IsDir(m, d)} :: IsDir(m, d) ==> NoGap(m, d))
    && (forall f: nat {:trigger IsFile(m, f)} :: IsFile(m, f) ==> NothingBeyond(m, f))
  }

  ghost predicate Owns(m: Mem, i: nat, k: nat, b: nat) {
    IsLive(m, i) && PtrAt(m, i, k) == b
  }

  ghost function OwnerOf(m: Mem, b: nat): Owner {
    if exists i: nat, k: nat :: Owns(m, i, k, b) then
      var i: nat, k: nat :| Owns(m, i, k, b);
      Owner(i, k)
    else Owner(0, 0)
  }

  ghost function OwnersOf(m: Mem): map<nat, Owner> {
    map b: nat | b < |m.used| && m.used[b] :: OwnerOf(m, b)
  }

  ghost predicate Lists(m: Mem, d: nat, k: nat, j: nat, n: Name) {
    EntryAt(m, d, k, j).id != 0 && EntryAt(m, d, k, j).name == n
  }

  ghost function SlotOf(m: Mem, d: nat, n: Name): Slot {
    if exists k: nat, j: nat :: Lists(m, d, k, j, n) then
      var k: nat, j: nat :| Lists(m, d, k, j, n);
      Slot(k, j, EntryAt(m, d, k, j).id)
    else Slot(0, 0, 0)
  }

  ghost function NameSet(m: Mem, d: nat): set<Name> {
    set k: nat, j: nat | k < PTRS_PER_NODE && j < ENTRIES_PER_BLOCK && EntryAt(m, d, k, j).id != 0 ::
        EntryAt(m, d, k, j).name
  }

  ghost function NamesOf(m: Mem, d: nat): map<Name, Slot> {
    map n | n in NameSet(m, d) :: SlotOf(m, d, n)
  }

  ghost function DirsOf(m: Mem): Dirs {
    map d: nat | d < |m.nodes| && IsDir(m, d) :: NamesOf(m, d)
  }

  ghost function PathTo(m: Mem, root: nat, x: nat): Path {
    if exists p: Path :: Reached(m, root, p, x) then
      var p: Path :| Reached(m, root, p, x);
      p
    else []
  }

  ghost function PlacesOf(m: Mem, root: nat): map<nat, Place> {
    map x | x in Live(m) :: Place(root, PathTo(m, root, x))
  }

  /** The owners, directories and places the memory itself shows. */
  ghost function ShapeOf(m: Mem, root: nat): Shape {
    Shape(OwnersOf(m), DirsOf(m), {root}, PlacesOf(m, root))
  }

  lemma OwnersShown(m: Mem, root: nat)
    requires Sized(m) && Tidy(m, root) && Clear(m)
    ensures Owned(m, OwnersOf(m))
  {
    var own := OwnersOf(m);
    forall i: nat, k: nat | PtrAt(m, i, k) != NO_BLOCK ensures PtrAt(m, i, k) in own
        && own[PtrAt(m, i, k)] == Owner(i, k) {
      assert IsLive(m, i);
      assert OneOwner(m, PtrAt(m, i, k));
      assert Owns(m, i, k, PtrAt(m, i, k));
    }
    forall b <- own ensures b < |m.blocks| && PtrAt(m, own[b].node, own[b].k) == b {
      assert OneOwner(m, b);
      var i: nat, k: nat :| IsLive(m, i) && PtrAt(m, i, k) == b;
      assert Owns(m, i, k, b);
    }
  }

  lemma SlotShown(m: Mem, d: nat, k: nat, j: nat)
    requires Sized(m) && DirFineAt(m, d) && EntryAt(m, d, k, j).id != 0
    ensures k < PTRS_PER_NODE && j < ENTRIES_PER_BLOCK && ValidName(EntryAt(m, d, k, j).name)
    ensures EntryAt(m, d, k, j).name in NamesOf(m, d)
    ensures NamesOf(m, d)[EntryAt(m, d, k, j).name] == Slot(k, j, EntryAt(m, d, k, j).id)
  {
    var n := EntryAt(m, d, k, j).name;
    SlotBounds(m, d, k, j);
    assert Lists(m, d, k, j, n);
    assert SlotFine(m, d, k, j);
    forall l: nat, h: nat | Lists(m, d, l, h, n) ensures l == k && h == j {
      SlotBounds(m, d, l, h);
      assert SlotFine(m, d, l, h);
    }
  }

  ghost predicate DirFineAt(m: Mem, d: nat) {
    d < |m.nodes| && DirFine(m, d)
  }

  lemma SlotBounds(m: Mem, d: nat, k: nat, j: nat)
    requires Sized(m) && EntryAt(m, d, k, j).id != 0
    ensures k < PTRS_PER_NODE && j < ENTRIES_PER_BLOCK
  {
  }

  lemma NamesShown(m: Mem, d: nat)
    requires Sized(m) && IsDir(m, d) && DirFine(m, d) && NoGap(m, d)
    ensures DirOk(m, d, NamesOf(m, d))
  {
    hide DirFine, EntryAt, Sized, ValidName, PtrAt;
    var names := NamesOf(m, d);
    forall n <- names
      ensures ValidName(n) && names[n].id != 0 && EntryAt(m, d, names[n].k, names[n].j) == Entry(names[n].id, n)
    {
      var k: nat, j: nat :| k < PTRS_PER_NODE && j < ENTRIES_PER_BLOCK && EntryAt(m, d, k, j).id != 0
          && EntryAt(m, d, k, j).name == n;
      SlotShown(m, d, k, j);
    }
    forall k: nat, j: nat | EntryAt(m, d, k, j).id != 0
      ensures EntryAt(m, d, k, j).name in names && names[EntryAt(m, d, k, j).name] == Slot(k, j, EntryAt(m, d, k, j).id)
    {
      SlotShown(m, d, k, j);
    }
    NamesNumber(m, d, names);
    SizeIsTaken(m, d);
  }

  lemma SizeIsTaken(m: Mem, d: nat)
    requires d < |m.nodes| && DirFine(m, d)
    ensures m.nodes[d].size == Taken(m, d, PTRS_PER_NODE * ENTRIES_PER_BLOCK)
  {
  }

  lemma StructShown(m: Mem, root: nat)
    requires Sized(m) && MetadataOk(m, root) && Tidy(m, root) && Clear(m)
    ensures Struct(m, OwnersOf(m), DirsOf(m), 0)
  {
    hide DirFine, PtrsSane, DirOk, NamesOf, OwnersOf, Owned, Tidy, NoGap, Sized;
    OwnersShown(m, root);
    var dirs := DirsOf(m);
    forall d <- dirs ensures DirOk(m, d, dirs[d]) {
      NotNothing(m, d);
      assert NodeFine(m, d);
      NamesShown(m, d);
    }
    forall i: nat | IsFile(m, i) ensures FileOk(m, i) {
      NotNothing(m, i);
      assert NodeFine(m, i);
      FileShown(m, i);
    }
  }

  lemma NotNothing(m: Mem, i: nat)
    requires Sized(m) && i < |m.nodes| && m.nodes[i].kind != Free
    ensures i != 0
  {
  }

  lemma FileShown(m: Mem, f: nat)
    requires Sized(m) && f < |m.nodes| && FileFine(m, f) && NothingBeyond(m, f)
    ensures FileOk(m, f)
  {
  }

  /** One entry leads to a node, so one path does. */
  lemma {:induction false} ReachedOnce(m: Mem, root: nat, p: Path, q: Path, x: nat)
    requires Sized(m) && Tidy(m, root) && Reached(m, root, p, x) && Reached(m, root, q, x)
    ensures p == q
    decreases |p|
  {
    hide EntryAt, Names, IsLive, OneOwner, Sized;
    assert OneEntry(m, root, x) && OneEntry(m, root, root) && IsLive(m, root) by { RootIsLive(m, root); }
    if p != [] && q != [] {
      var d: nat, k: nat, j: nat :|
        Names(m, d, k, j, x) && EntryAt(m, d, k, j).name == p[|p|-1] && Reached(m, root, p[..|p|-1], d);
      var c: nat, l: nat, h: nat :|
        Names(m, c, l, h, x) && EntryAt(m, c, l, h).name == q[|q|-1] && Reached(m, root, q[..|q|-1], c);
      assert IsLive(m, x);
      assert d == c && k == l && j == h;
      ReachedOnce(m, root, p[..|p|-1], q[..|q|-1], d);
      assert p == p[..|p|-1] + [p[|p|-1]] && q == q[..|q|-1] + [q[|q|-1]];
    }
  }

  lemma RootIsLive(m: Mem, root: nat)
    requires Tidy(m, root) && Sized(m)
    ensures IsLive(m, root)
  {
    NotNothing(m, root);
  }

  lemma PathIs(m: Mem, root: nat, p: Path, x: nat)
    requires Sized(m) && Tidy(m, root) && Reached(m, root, p, x)
    ensures PathTo(m, root, x) == p
  {
    hide Reached, Tidy, Sized;
    ReachedOnce(m, root, p, PathTo(m, root, x), x);
  }

  /** Along an entry the path grows by its name. */
  lemma EntryShown(m: Mem, root: nat, d: nat, k: nat, j: nat, x: nat)
    requires Sized(m) && Tidy(m, root) && Names(m, d, k, j, x)
    ensures IsLive(m, d) && IsLive(m, x) && x != root
    ensures PathTo(m, root, x) == PathTo(m, root, d) + [EntryAt(m, d, k, j).name]
  {
    NotNothing(m, d);
    RootIsLive(m, root);
    assert OneEntry(m, root, d) && OneEntry(m, root, root);
    var p: Path :| Reached(m, root, p, d);
    var n := EntryAt(m, d, k, j).name;
    hide EntryAt, Names, OneEntry, OneOwner, Sized, Tidy;
    assert (p + [n])[..|p|] == p;
    assert Reached(m, root, p + [n], x);
    PathIs(m, root, p, d);
    PathIs(m, root, p + [n], x);
  }

  lemma {:induction false} ReachedWalks(m: Mem, root: nat, p: Path, x: nat)
    requires Struct(m, OwnersOf(m), DirsOf(m), 0) && Reached(m, root, p, x)
    ensures Walk(GraphOf(DirsOf(m)), root, p) == x
    decreases |p|
  {
    if p != [] {
      var d: nat, k: nat, j: nat :|
        Names(m, d, k, j, x) && EntryAt(m, d, k, j).name == p[|p|-1] && Reached(m, root, p[..|p|-1], d);
      ReachedWalks(m, root, p[..|p|-1], d);
      EntryInGraph(m, d, k, j, x);
    }
  }

  lemma EntryInGraph(m: Mem, d: nat, k: nat, j: nat, x: nat)
    requires Struct(m, OwnersOf(m), DirsOf(m), 0) && Names(m, d, k, j, x)
    ensures var g, n := GraphOf(DirsOf(m)), EntryAt(m, d, k, j).name; d in g && n in g[d] && g[d][n] == x
  {
    hide NamesOf, OwnersOf, Owned, Sized;
    assert d in DirsOf(m) <==> IsDir(m, d);
    NotNothing(m, d);
    assert DirOk(m, d, DirsOf(m)[d]);
  }

  lemma ForestShown(m: Mem, root: nat)
    requires Sized(m) && Tidy(m, root) && Struct(m, OwnersOf(m), DirsOf(m), 0)
    ensures Forest(GraphOf(DirsOf(m)), {root}, PlacesOf(m, root))
    ensures PlacesOf(m, root).Keys == Live(m)
  {
    hide Struct, Reached, Names, OneOwner, OneEntry, EntryAt, PathTo, Walk, OwnersOf, NamesOf;
    var g, place := GraphOf(DirsOf(m)), PlacesOf(m, root);
    RootIsLive(m, root);
    PathIs(m, root, [], root) by { RootReached(m, root); }
    forall d <- g ensures d in place { NotNothing(m, d); }
    forall d: nat, n: Name ensures EdgeOk(g, {root}, place, d, n) {
      if d in g && n in g[d] {
        var k, j := EdgeNames(m, d, n);
        EntryShown(m, root, d, k, j, g[d][n]);
      }
    }
    forall x: nat ensures NodeOk(g, {root}, place, x) {
      if x in place {
        assert OneEntry(m, root, x);
        LiveReached(m, root, x);
        ReachedWalks(m, root, PathTo(m, root, x), x);
      }
    }
  }

  lemma RootReached(m: Mem, root: nat)
    ensures Reached(m, root, [], root)
  {
  }

  lemma LiveReached(m: Mem, root: nat, x: nat)
    requires OneEntry(m, root, x) && IsLive(m, x)
    ensures Reached(m, root, PathTo(m, root, x), x)
  {
  }

  lemma EdgeNames(m: Mem, d: nat, n: Name) returns (k: nat, j: nat)
    requires Struct(m, OwnersOf(m), DirsOf(m), 0) && d in DirsOf(m) && n in DirsOf(m)[d]
    ensures Names(m, d, k, j, GraphOf(DirsOf(m))[d][n]) && EntryAt(m, d, k, j).name == n
  {
    hide NamesOf, OwnersOf, Owned, Sized, EntryAt;
    NotNothing(m, d);
    assert DirOk(m, d, DirsOf(m)[d]);
    k, j := DirsOf(m)[d][n].k, DirsOf(m)[d][n].j;
  }

  /** A memory is a file system exactly when the mount check accepts it, it is tidy, and what is not in use is clear;
      its owners, directories and places are then those it shows. */
  lemma WhenATree(m: Mem, root: nat)
    requires Sized(m)
    ensures (exists s: Shape :: Rooted(m, s, root)) <==> MetadataOk(m, root) && Tidy(m, root) && Clear(m)
    ensures Rooted(m, ShapeOf(m, root), root) <==> MetadataOk(m, root) && Tidy(m, root) && Clear(m)
  {
    hide Rooted, NodeFine, Tidy, Clear, Sized;
    forall s: Shape | Rooted(m, s, root) ensures MetadataOk(m, root) && Tidy(m, root) && Clear(m) {
      RootedPasses(m, s, root);
      RootedTidy(m, s, root);
      RootedClear(m, s, root);
    }
    if MetadataOk(m, root) && Tidy(m, root) && Clear(m) {
      StructShown(m, root);
      ForestShown(m, root);
      ShownRooted(m, root);
    }
  }

  lemma ShownRooted(m: Mem, root: nat)
    requires Struct(m, OwnersOf(m), DirsOf(m), 0) && IsDir(m, root)
    requires Forest(GraphOf(DirsOf(m)), {root}, PlacesOf(m, root)) && PlacesOf(m, root).Keys == Live(m)
    ensures Rooted(m, ShapeOf(m, root), root)
  {
    hide Forest, OwnersOf, NamesOf, PlacesOf, Owned, DirOk, FileOk;
  }

  lemma RootedClear(m: Mem, s: Shape, root: nat)
    requires Rooted(m, s, root)
    ensures Clear(m)
  {
    hide Forest;
    forall d: nat | IsDir(m, d) ensures NoGap(m, d) {
      assert d in s.dirs;
      assert DirOk(m, d, s.dirs[d]);
    }
    forall f: nat | IsFile(m, f) ensures NothingBeyond(m, f) { FileNotBeyond(m, f); }
  }

  lemma FileNotBeyond(m: Mem, f: nat)
    requires FileOk(m, f) && Sized(m)
    ensures NothingBeyond(m, f)
  {
  }

  /** The bookkeeping of a file system is what its memory shows: two views of one memory never differ. */
  lemma OneShape(m: Mem, s: Shape, t: Shape, root: nat)
    requires Rooted(m, s, root) && Rooted(m, t, root)
    ensures s == t
  {
    SameOwners(m, s.own, t.own);
    SameDirs(m, s, t);
    SamePlaces(m, s, t, root);
    hide Struct, Forest;
  }

  lemma SameOwners(m: Mem, own: map<nat, Owner>, own': map<nat, Owner>)
    requires Sized(m) && Owned(m, own) && Owned(m, own')
    ensures own == own'
  {
    forall b: nat ensures b in own <==> b in own' {
      if b in own { assert m.used[b]; }
      if b in own' { assert m.used[b]; }
    }
    forall b <- own ensures own[b] == own'[b] {
      assert PtrAt(m, own[b].node, own[b].k) == b;
    }
  }

  lemma SameDirs(m: Mem, s: Shape, t: Shape)
    requires Sound(m, s, 0) && Sound(m, t, 0)
    ensures s.dirs == t.dirs
  {
    hide Forest, Owned;
    forall d: nat ensures d in s.dirs <==> d in t.dirs {}
    forall d <- s.dirs ensures s.dirs[d] == t.dirs[d] {
      Basics(m, s, 0);
      assert DirOk(m, d, s.dirs[d]) && DirOk(m, d, t.dirs[d]);
      SameNames(m, d, s.dirs[d], t.dirs[d]);
    }
  }

  lemma SameNames(m: Mem, d: nat, a: map<Name, Slot>, b: map<Name, Slot>)
    requires DirOk(m, d, a) && DirOk(m, d, b)
    ensures a == b
  {
    hide EntryAt, ValidName;
    forall n <- a ensures n in b && a[n] == b[n] { assert EntryAt(m, d, a[n].k, a[n].j) == Entry(a[n].id, n); }
    forall n <- b ensures n in a { assert EntryAt(m, d, b[n].k, b[n].j) == Entry(b[n].id, n); }
  }

  lemma SamePlaces(m: Mem, s: Shape, t: Shape, root: nat)
    requires Rooted(m, s, root) && Rooted(m, t, root) && s.dirs == t.dirs
    ensures s.place == t.place
  {
    hide Struct, Walk;
    forall x <- s.place ensures s.place[x] == t.place[x] {
      assert NodeOk(GraphOf(s.dirs), s.roots, s.place, x);
      Basics(m, s, 0);
      WalkPlace(GraphOf(t.dirs), t.roots, t.place, root, s.place[x].path);
    }
  }

  /** ... so every file system's bookkeeping is the one its memory shows. */
  lemma RootedShown(m: Mem, s: Shape, root: nat)
    requires Rooted(m, s, root)
    ensures s == ShapeOf(m, root) && s.dirs == DirsOf(m)
  {
    hide Rooted, OwnersOf, DirsOf, PlacesOf;
    RootedSized(m, s, root);
    WhenATree(m, root);
    OneShape(m, s, ShapeOf(m, root), root);
  }

  lemma RootedSized(m: Mem, s: Shape, root: nat)
    requires Rooted(m, s, root)
    ensures Sized(m)
  {
  }

  // ----- what the check made at mount says of a memory

  /** What can be read of one live node: its pointers lead to used blocks, no two to the same; a file has a pointer for
      every 4096 bytes begun; the taken slots of a directory list as many names as its size says, each once and well
      formed, and each for another live node. */
  ghost predicate Readable(m: Mem, i: nat) {
    && i < |m.nodes|
    && (forall k: nat {:trigger PtrAt(m, i, k)} :: PtrAt(m, i, k) != NO_BLOCK ==>
          PtrAt(m, i, k) < |m.used| && m.used[PtrAt(m, i, k)])
    && (forall k: nat, l: nat {:trigger PtrAt(m, i, k), PtrAt(m, i, l)} ::
          k != l && PtrAt(m, i, k) != NO_BLOCK ==> PtrAt(m, i, k) != PtrAt(m, i, l))
    && (m.nodes[i].kind == File ==>
          && m.nodes[i].size <= 490 * 4096
          && forall k: nat {:trigger PtrAt(m, i, k)} :: k * 4096 < m.nodes[i].size ==> PtrAt(m, i, k) != NO_BLOCK)
    && (m.nodes[i].kind == Dir ==> exists names: map<Name, Slot> :: ListsThese(m, i, names))
  }

  ghost predicate ListsThese(m: Mem, d: nat, names: map<Name, Slot>) {
    && d < |m.nodes| && m.nodes[d].size == |names| && Indexed(m, d, names)
    && forall n <- names :: ValidName(n) && names[n].id != d && IsLive(m, names[n].id)
  }

  /** The mount takes a memory exactly when its root is a directory and every live node can be read. */
  lemma CheckMeans(m: Mem, root: nat)
    requires Sized(m)
    ensures MetadataOk(m, root) <==> IsDir(m, root) && forall i: nat | IsLive(m, i) :: Readable(m, i)
  {
    hide Readable, NodeFine, Sized;
    forall i: nat | IsLive(m, i) ensures NodeFine(m, i) <==> Readable(m, i) { NodeMeans(m, i); }
    if forall i: nat | IsLive(m, i) :: Readable(m, i) {
      forall i: nat | 0 < i < |m.nodes| ensures NodeFine(m, i) {
        if m.nodes[i].kind == Free { FreeIsFine(m, i); } else { assert IsLive(m, i); }
      }
    }
  }

  lemma FreeIsFine(m: Mem, i: nat)
    requires i < |m.nodes| && m.nodes[i].kind == Free
    ensures NodeFine(m, i)
  {
  }

  lemma NodeMeans(m: Mem, i: nat)
    requires Sized(m) && IsLive(m, i)
    ensures NodeFine(m, i) <==> Readable(m, i)
  {
    SaneMeans(m, i);
    hide PtrsSane, DirFine, ListsThese;
    if m.nodes[i].kind == Dir { DirMeans(m, i); }
  }

  lemma SaneMeans(m: Mem, i: nat)
    requires Sized(m) && i < |m.nodes|
    ensures PtrsSane(m, i) <==>
            && (forall k: nat {:trigger PtrAt(m, i, k)} :: PtrAt(m, i, k) != NO_BLOCK ==>
                  PtrAt(m, i, k) < |m.used| && m.used[PtrAt(m, i, k)])
            && (forall k: nat, l: nat {:trigger PtrAt(m, i, k), PtrAt(m, i, l)} ::
                  k != l && PtrAt(m, i, k) != NO_BLOCK ==> PtrAt(m, i, k) != PtrAt(m, i, l))
  {
  }

  lemma DirMeans(m: Mem, d: nat)
    requires Sized(m) && IsDir(m, d)
    ensures DirFine(m, d) <==> exists names: map<Name, Slot> :: ListsThese(m, d, names)
  {
    hide DirFine, ListsThese;
    if DirFine(m, d) { FineLists(m, d); }
    if exists names: map<Name, Slot> :: ListsThese(m, d, names) {
      var names: map<Name, Slot> :| ListsThese(m, d, names);
      ListsFine(m, d, names);
    }
  }

  lemma FineLists(m: Mem, d: nat)
    requires Sized(m) && IsDir(m, d) && DirFine(m, d)
    ensures ListsThese(m, d, NamesOf(m, d))
  {
    hide DirFine, EntryAt, Sized, ValidName;
    var names := NamesOf(m, d);
    forall n <- names
      ensures ValidName(n) && names[n].id != 0 && EntryAt(m, d, names[n].k, names[n].j) == Entry(names[n].id, n)
      ensures names[n].id != d && IsLive(m, names[n].id)
    {
      var k: nat, j: nat :| k < PTRS_PER_NODE && j < ENTRIES_PER_BLOCK && EntryAt(m, d, k, j).id != 0
          && EntryAt(m, d, k, j).name == n;
      SlotShown(m, d, k, j);
      SlotLive(m, d, k, j);
    }
    forall k: nat, j: nat | EntryAt(m, d, k, j).id != 0
      ensures EntryAt(m, d, k, j).name in names && names[EntryAt(m, d, k, j).name] == Slot(k, j, EntryAt(m, d, k, j).id)
    {
      SlotShown(m, d, k, j);
    }
    NamesNumber(m, d, names);
    SizeIsTaken(m, d);
  }

  lemma SlotLive(m: Mem, d: nat, k: nat, j: nat)
    requires d < |m.nodes| && DirFine(m, d) && k < PTRS_PER_NODE && j < ENTRIES_PER_BLOCK && EntryAt(m, d, k, j).id != 0
    ensures EntryAt(m, d, k, j).id != d && IsLive(m, EntryAt(m, d, k, j).id)
  {
    assert SlotFine(m, d, k, j);
  }

  lemma ListsFine(m: Mem, d: nat, names: map<Name, Slot>)
    requires Sized(m) && ListsThese(m, d, names)
    ensures DirFine(m, d)
  {
    hide EntryAt, Sized, ValidName;
    forall k: nat, j: nat ensures SlotFine(m, d, k, j) { OneName(m, d, names, k, j); }
    NamesNumber(m, d, names);
  }

  lemma OneName(m: Mem, d: nat, names: map<Name, Slot>, k: nat, j: nat)
    requires ListsThese(m, d, names)
    ensures SlotFine(m, d, k, j)
  {
    hide EntryAt, ValidName;
    var n := EntryAt(m, d, k, j).name;
    if EntryAt(m, d, k, j).id != 0 {
      forall l: nat, h: nat | EntryAt(m, d, l, h).id != 0 && EntryAt(m, d, l, h).name == n ensures l == k && h == j {
        assert names[n] == Slot(l, h, EntryAt(m, d, l, h).id);
      }
    }
  }
}
