// What a whole create, delete, rename or move does to a sound file system and to its tree.
module BspEffects {
  import opened BspTypes
  import opened BspPaths
  import opened BspForest
  import opened BspState
  import opened BspStore
  import opened BspDirectory
  import opened BspTree

  function FreshItem(kind: Kind): Item {
    if kind == File then FileItem([]) else DirItem
  }

  /** The tree with one subtree taken from `a` and put at `b`. */
  ghost function Relocate(v: Tree, a: Path, b: Path): Tree {
    Graft(Prune(v, a), b, Sub(v, a))
  }

  lemma NewRootContents(m: Mem, s: Shape, busy: nat, x: nat, kind: Kind, r: nat)
    requires Sound(m, s, busy) && 0 < x < |m.nodes| && m.nodes[x].kind == Free && kind != Free && x != busy
    requires r in s.roots
    ensures var m' := WithNode(m, x, ClearNode(kind));
            var s' := NewRootShape(s, x, kind);
            && TreeAt(m', s'.dirs, r) == TreeAt(m, s.dirs, r)
            && TreeAt(m', s'.dirs, x) == Leaf(FreshItem(kind))
  {
    var m' := WithNode(m, x, ClearNode(kind));
    var s' := NewRootShape(s, x, kind);
    forall p: Path
      ensures Walk(GraphOf(s'.dirs), r, p) == Walk(GraphOf(s.dirs), r, p)
      ensures Walk(GraphOf(s'.dirs), r, p) != 0
              ==> ItemOf(m', Walk(GraphOf(s'.dirs), r, p)) == ItemOf(m, Walk(GraphOf(s.dirs), r, p))
      ensures p != [] ==> Walk(GraphOf(s'.dirs), x, p) == 0
    {
      hide *;
      NewRootWalks(m, s, busy, x, kind, r, p);
    }
    hide Sound;
    SameByWalks(m, m', s.dirs, s'.dirs, r);
    FreshTree(m', s'.dirs, x, kind);
  }

  lemma SameByWalks(m: Mem, m': Mem, dirs: Dirs, dirs': Dirs, r: nat)
    requires forall p: Path :: Walk(GraphOf(dirs'), r, p) == Walk(GraphOf(dirs), r, p)
    requires forall p: Path ::
               Walk(GraphOf(dirs), r, p) != 0
               ==> ItemOf(m', Walk(GraphOf(dirs), r, p)) == ItemOf(m, Walk(GraphOf(dirs), r, p))
    ensures TreeAt(m', dirs', r) == TreeAt(m, dirs, r)
  {
    hide ItemOf, Walk;
  }

  lemma FreshTree(m: Mem, dirs: Dirs, x: nat, kind: Kind)
    requires 0 < x < |m.nodes| && m.nodes[x] == ClearNode(kind) && kind != Free
    requires forall p: Path :: p != [] ==> Walk(GraphOf(dirs), x, p) == 0
    ensures TreeAt(m, dirs, x) == Leaf(FreshItem(kind))
  {
    assert Walk(GraphOf(dirs), x, []) == x;
    assert FileBytes(m, x) == [];
    assert ItemOf(m, x) == FreshItem(kind);
    hide Walk, ItemOf;
  }

  lemma NewRootWalks(m: Mem, s: Shape, busy: nat, x: nat, kind: Kind, r: nat, p: Path)
    requires Sound(m, s, busy) && 0 < x < |m.nodes| && m.nodes[x].kind == Free && kind != Free && x != busy
    requires r in s.roots
    ensures var g := GraphOf(s.dirs);
            var h := GraphOf(NewRootShape(s, x, kind).dirs);
            && Walk(h, r, p) == Walk(g, r, p)
            && (Walk(g, r, p) != 0 ==>
              ItemOf(WithNode(m, x, ClearNode(kind)), Walk(g, r, p)) == ItemOf(m, Walk(g, r, p)))
            && (p != [] ==> Walk(h, x, p) == 0)
  {
    hide Struct, Forest, OnlyNode, Walk, ItemOf, ClearNode, WithNode;
    FewBlocks(m, s, busy);
    NewRootSound(m, s, busy, x, kind);
    var s' := NewRootShape(s, x, kind);
    WalkAt(GraphOf(s.dirs), s.roots, s.place, r, p);
    WalkAt(GraphOf(s'.dirs), s'.roots, s'.place, r, p);
    WalkAt(GraphOf(s'.dirs), s'.roots, s'.place, x, p);
    Basics(m, s, busy);
    var w, w', y := Walk(GraphOf(s.dirs), r, p), Walk(GraphOf(s'.dirs), r, p), Walk(GraphOf(s'.dirs), x, p);
    if w != 0 {
      assert s'.place[w] == Place(r, p);
      ItemFrame(m, WithNode(m, x, ClearNode(kind)), x, w);
    }
    if w' != 0 { assert w' != x && s.place[w'] == Place(r, p); }
    if y != 0 && y in s.place { RootOf(m, s, busy, y); }
  }

  lemma FewBlocks(m: Mem, s: Shape, busy: nat)
    requires Sound(m, s, busy)
    ensures |m.blocks| < NO_BLOCK
  {
  }

  lemma TreeHasPlaces(m: Mem, s: Shape, busy: nat, r: nat, p: Path)
    requires Sound(m, s, busy) && r in s.roots
    ensures p in TreeAt(m, s.dirs, r) ==>
              var y := Walk(GraphOf(s.dirs), r, p);
              y in s.place && s.place[y] == Place(r, p) && TreeAt(m, s.dirs, r)[p] == ItemOf(m, y)
    ensures forall y <- s.place ::
              s.place[y] == Place(r, p) ==> p in TreeAt(m, s.dirs, r) && TreeAt(m, s.dirs, r)[p] == ItemOf(m, y)
  {
    Basics(m, s, busy);
    WalkAt(GraphOf(s.dirs), s.roots, s.place, r, p);
  }

  /** Create: a fresh node, and its entry in directory `d`. */
  lemma CreateEffect(m: Mem, s: Shape, root: nat, d: nat, x: nat, kind: Kind, t: Spot, n: Name)
    requires Rooted(m, s, root) && d in s.dirs && d in s.place && n !in s.dirs[d] && ValidName(n)
    requires 0 < x < |m.nodes| && m.nodes[x].kind == Free && kind != Free
    requires SpotFits(WithNode(m, x, ClearNode(kind)), d, t)
    ensures var m1, s1 := WithNode(m, x, ClearNode(kind)), NewRootShape(s, x, kind);
            && d in s1.dirs && d in s1.place
            && var m2, s2 := Added(m1, d, t, Entry(x, n)), AttachShape(s1, d, t, x, n);
            && Rooted(m2, s2, root) && s.place[d].root == root
            && TreeAt(m2, s2.dirs, root) == TreeAt(m, s.dirs, root)[s.place[d].path + [n] := FreshItem(kind)]
  {
    hide Struct, Forest, TreeAt, SpotFits, Added;
    var m1, s1 := WithNode(m, x, ClearNode(kind)), NewRootShape(s, x, kind);
    Basics(m, s, 0);
    NewRootSound(m, s, 0, x, kind);
    RootOf(m, s, 0, d);
    AttachSound(m1, s1, 0, d, t, x, n);
    AttachContents(m1, s1, 0, d, t, x, n, root);
    NewRootContents(m, s, 0, x, kind, root);
    var v, b := TreeAt(m, s.dirs, root), s.place[d].path + [n];
    NotYetThere(m, s, root, d, n);
    TreePrefixClosed(m, s, 0, root);
    GraftLeaf(v, b, FreshItem(kind));
    var s2 := AttachShape(s1, d, t, x, n);
    assert s2.roots == {root};
    assert root in s2.dirs;
  }

  lemma RootOf(m: Mem, s: Shape, busy: nat, y: nat)
    requires Sound(m, s, busy) && y in s.place
    ensures s.place[y].root in s.roots
  {
    assert NodeOk(GraphOf(s.dirs), s.roots, s.place, y);
  }

  lemma NotYetThere(m: Mem, s: Shape, root: nat, d: nat, n: Name)
    requires Rooted(m, s, root) && d in s.dirs && d in s.place && n !in s.dirs[d]
    ensures s.place[d].path + [n] !in TreeAt(m, s.dirs, root)
  {
    RootOf(m, s, 0, d);
    NothingBelow(GraphOf(s.dirs), s.roots, s.place, d, n, []);
    assert s.place[d].path + [n] + [] == s.place[d].path + [n];
  }

  /** What a directory lists is what the tree has one name below it. */
  lemma ListedThere(m: Mem, s: Shape, root: nat, d: nat, n: Name)
    requires Rooted(m, s, root) && d in s.dirs && d in s.place && n in s.dirs[d]
    ensures s.dirs[d][n].id in s.place
    ensures s.place[s.dirs[d][n].id] == Place(root, s.place[d].path + [n])
    ensures Walk(GraphOf(s.dirs), root, s.place[d].path + [n]) == s.dirs[d][n].id
    ensures s.place[d].path + [n] in TreeAt(m, s.dirs, root)
  {
    RootOf(m, s, 0, d);
    EdgePlace(GraphOf(s.dirs), s.roots, s.place, d, n);
    WalkAt(GraphOf(s.dirs), s.roots, s.place, root, s.place[d].path + [n]);
    Basics(m, s, 0);
  }

  lemma CutFacts(m: Mem, s: Shape, root: nat, d: nat, n: Name, d2: nat)
    requires Rooted(m, s, root) && d in s.dirs && n in s.dirs[d] && s.dirs[d][n].id in s.place
    requires d2 in s.dirs && d2 in s.place && !InSubtree(s.place, s.dirs[d][n].id, d2)
    ensures var x, s1 := s.dirs[d][n].id, CutShape(s, d, n);
            && x != root && x != 0 && s1.roots == {root, x} && root in s1.dirs
            && d2 in s1.dirs && d2 in s1.place && s1.place[d2] == s.place[d2] && s.place[d2].root == root
            && s1.dirs[d2] == (if d2 == d then s.dirs[d] - {n} else s.dirs[d2])
  {
    hide Struct, Forest;
    EdgePlace(GraphOf(s.dirs), s.roots, s.place, d, n);
    Basics(m, s, 0);
    RootOf(m, s, 0, d2);
    var x := s.dirs[d][n].id;
    assert CutShape(s, d, n).place[d2] == DetachedAt(s.place, x, d2);
  }

  /** The entry (d, n) is wiped and the node it named is entered under d2 as n2. */
  lemma RelocateEffect(m: Mem, s: Shape, root: nat, d: nat, n: Name, d2: nat, t: Spot, n2: Name)
    requires Rooted(m, s, root) && d in s.dirs && d in s.place && n in s.dirs[d] && s.dirs[d][n].id in s.place
    requires PtrAt(m, d, s.dirs[d][n].k) < |m.blocks| && s.dirs[d][n].j < ENTRIES_PER_BLOCK && d < |m.nodes|
             && m.nodes[d].size > 0
    requires d2 in s.dirs && d2 in s.place && !InSubtree(s.place, s.dirs[d][n].id, d2)
    requires n2 !in CutShape(s, d, n).dirs[d2] && ValidName(n2) && SpotFits(CutMem(m, s, d, n), d2, t)
    ensures var x, m1, s1 := s.dirs[d][n].id, CutMem(m, s, d, n), CutShape(s, d, n);
            && d2 in s1.dirs && d2 in s1.place
            && var m2, s2 := Added(m1, d2, t, Entry(x, n2)), AttachShape(s1, d2, t, x, n2);
            && Rooted(m2, s2, root)
            && TreeAt(m2, s2.dirs, root)
                == Relocate(TreeAt(m, s.dirs, root), s.place[d].path + [n], s.place[d2].path + [n2])
  {
    var x, m1, s1 := s.dirs[d][n].id, CutMem(m, s, d, n), CutShape(s, d, n);
    CutFacts(m, s, root, d, n, d2);
    hide Forest, Struct, SpotFits, Added, TreeAt, Graft, Prune, Sub, CutMem, CutShape, AttachShape;
    CutSound(m, s, 0, d, n);
    CutContents(m, s, 0, d, n);
    RootOf(m, s, 0, d);
    AttachRooted(m1, s1, root, d2, t, x, n2, Added(m1, d2, t, Entry(x, n2)), AttachShape(s1, d2, t, x, n2));
  }

  lemma AttachRooted(m: Mem, s: Shape, root: nat, d: nat, t: Spot, x: nat, n: Name, m2: Mem, s2: Shape)
    requires SpotFits(m, d, t) && m2 == Added(m, d, t, Entry(x, n))
    requires d in s.dirs && d in s.place && n !in s.dirs[d] && s2 == AttachShape(s, d, t, x, n)
    requires Sound(m, s, 0) && s.roots == {root, x} && x != root && root in s.dirs
    requires s.place[d].root == root && ValidName(n)
    ensures Rooted(m2, s2, root)
    ensures TreeAt(m2, s2.dirs, root) == Graft(TreeAt(m, s.dirs, root), s.place[d].path + [n], TreeAt(m, s.dirs, x))
  {
    AttachedRoots(s, root, d, t, x, n);
    hide *;
    AttachSound(m, s, 0, d, t, x, n);
    AttachContents(m, s, 0, d, t, x, n, root);
    IsRooted(m2, s2, root);
  }

  lemma AttachedRoots(s: Shape, root: nat, d: nat, t: Spot, x: nat, n: Name)
    requires s.roots == {root, x} && x != root && root in s.dirs && d in s.dirs && d in s.place
    ensures AttachShape(s, d, t, x, n).roots == {root} && root in AttachShape(s, d, t, x, n).dirs
  {
  }

  lemma IsRooted(m: Mem, s: Shape, root: nat)
    requires Sound(m, s, 0) && s.roots == {root} && root in s.dirs
    ensures Rooted(m, s, root)
  {
    hide Sound;
  }

  /** Rename in place: the slot keeps its node under a new name. */
  lemma RenameEffect(m: Mem, s: Shape, root: nat, d: nat, n: Name, n': Name)
    requires Rooted(m, s, root) && d in s.dirs && d in s.place
    requires n in s.dirs[d] && n' !in s.dirs[d] && ValidName(n')
    ensures PtrAt(m, d, s.dirs[d][n].k) < |m.blocks| && s.dirs[d][n].j < ENTRIES_PER_BLOCK && d < |m.nodes|
    ensures s.dirs[d][n].id in s.place
    ensures var slot := s.dirs[d][n];
            var t := Spot(slot.k, slot.j, false, PtrAt(m, d, slot.k));
            var m2 := Written(m, d, slot.k, slot.j, Entry(slot.id, n'), m.nodes[d].size);
            var s1 := CutShape(s, d, n);
            && d in s1.dirs && d in s1.place
            && var s2 := AttachShape(s1, d, t, slot.id, n');
            && Rooted(m2, s2, root)
            && TreeAt(m2, s2.dirs, root)
                == Relocate(TreeAt(m, s.dirs, root), s.place[d].path + [n], s.place[d].path + [n'])
  {
    Basics(m, s, 0);
    CutSpot(m, s.own, s.dirs, d, n);
    hide Forest, Struct, Sized, TreeAt, SpotFits, Added, AttachShape, Relocate;
    CutSound(m, s, 0, d, n);
    var slot := s.dirs[d][n];
    RelocateEffect(m, s, root, d, n, d, Spot(slot.k, slot.j, false, PtrAt(m, d, slot.k)), n');
  }

  /** The slot just wiped is free, and filling it again gives one overwritten slot. */
  lemma CutSpot(m: Mem, own: map<nat, Owner>, dirs: Dirs, d: nat, n: Name)
    requires Struct(m, own, dirs, 0) && d in dirs && n in dirs[d] && d != 0
    ensures PtrAt(m, d, dirs[d][n].k) < |m.blocks| && dirs[d][n].j < ENTRIES_PER_BLOCK && d < |m.nodes|
            && m.nodes[d].size > 0
    ensures var slot := dirs[d][n];
            var t := Spot(slot.k, slot.j, false, PtrAt(m, d, slot.k));
            var m1 := Written(m, d, slot.k, slot.j, EMPTY_ENTRY, m.nodes[d].size - 1);
            && SpotFits(m1, d, t)
            && forall e: Entry :: Added(m1, d, t, e) == Written(m, d, slot.k, slot.j, e, m.nodes[d].size)
  {
    assert IsDir(m, d);
    DirLoses(m, own, dirs, 0, d, n);
    var slot := dirs[d][n];
    assert EntryAt(m, d, slot.k, slot.j) == Entry(slot.id, n);
    WipedSpot(m, own, d, dirs[d], slot.k, slot.j);
    forall e: Entry
      ensures Added(Written(m, d, slot.k, slot.j, EMPTY_ENTRY, m.nodes[d].size - 1), d,
              Spot(slot.k, slot.j, false, PtrAt(m, d, slot.k)), e)
              == Written(m, d, slot.k, slot.j, e, m.nodes[d].size)
    {
      hide Struct, Owned, DirOk;
      Rewritten(m, d, slot.k, slot.j, e);
    }
  }

  lemma WipedSpot(m: Mem, own: map<nat, Owner>, d: nat, names: map<Name, Slot>, k: nat, j: nat)
    requires Sized(m) && Owned(m, own) && 0 < d && IsDir(m, d) && DirOk(m, d, names)
    requires PtrAt(m, d, k) < |m.blocks| && j < ENTRIES_PER_BLOCK && m.nodes[d].size > 0
    ensures SpotFits(Written(m, d, k, j, EMPTY_ENTRY, m.nodes[d].size - 1), d, Spot(k, j, false, PtrAt(m, d, k)))
  {
    hide Owned, OnlyNode, DirOk, SpotFits, Written, EntryAt;
    NoGapBefore(m, d, names, k);
    WrittenOwned(m, own, d, k, j, EMPTY_ENTRY, m.nodes[d].size - 1);
    WipedSlot(m, d, k, j);
  }

  lemma WipedSlot(m: Mem, d: nat, k: nat, j: nat)
    requires Sized(m) && 0 < d < |m.nodes| && k < PTRS_PER_NODE
    requires PtrAt(m, d, k) < |m.blocks| && j < ENTRIES_PER_BLOCK && m.nodes[d].size > 0
    requires Sized(Written(m, d, k, j, EMPTY_ENTRY, m.nodes[d].size - 1))
    requires forall l: nat {:trigger PtrAt(m, d, l)} :: l < k ==> PtrAt(m, d, l) != NO_BLOCK
    ensures SpotFits(Written(m, d, k, j, EMPTY_ENTRY, m.nodes[d].size - 1), d, Spot(k, j, false, PtrAt(m, d, k)))
  {
    assert |EntriesOf(m.blocks[PtrAt(m, d, k)])| == ENTRIES_PER_BLOCK;
    hide Sized, IsData;
    var m1 := Written(m, d, k, j, EMPTY_ENTRY, m.nodes[d].size - 1);
    forall l: nat ensures PtrAt(m1, d, l) == PtrAt(m, d, l) {}
    assert EntryAt(m1, d, k, j) == EMPTY_ENTRY;
  }

  lemma NoGapBefore(m: Mem, d: nat, names: map<Name, Slot>, k: nat)
    requires DirOk(m, d, names) && PtrAt(m, d, k) < |m.blocks| < NO_BLOCK && Sized(m)
    ensures k < PTRS_PER_NODE
    ensures forall l: nat {:trigger PtrAt(m, d, l)} :: l < k ==> PtrAt(m, d, l) != NO_BLOCK
  {
  }

  lemma Rewritten(m: Mem, d: nat, k: nat, j: nat, e: Entry)
    requires Sized(m) && d < |m.nodes| && PtrAt(m, d, k) < |m.blocks| && j < ENTRIES_PER_BLOCK && m.nodes[d].size > 0
    requires SpotFits(Written(m, d, k, j, EMPTY_ENTRY, m.nodes[d].size - 1), d, Spot(k, j, false, PtrAt(m, d, k)))
    ensures Added(Written(m, d, k, j, EMPTY_ENTRY, m.nodes[d].size - 1), d, Spot(k, j, false, PtrAt(m, d, k)), e)
            == Written(m, d, k, j, e, m.nodes[d].size)
  {
    var m1 := Written(m, d, k, j, EMPTY_ENTRY, m.nodes[d].size - 1);
    var b := PtrAt(m, d, k);
    assert PtrAt(m1, d, k) == b;
    assert EntriesOf(m1.blocks[b])[j := e] == EntriesOf(m.blocks[b])[j := e];
    hide EntriesOf, SpotFits;
  }

  // ----- delete

  /** One more block of a node under removal or rewriting is given back. */
  lemma ReleaseStep(m: Mem, s: Shape, x: nat, k: nat)
    requires Sound(m, s, x) && x in s.place && k < PTRS_PER_NODE && PtrAt(m, x, k) != NO_BLOCK
    ensures x < |m.nodes| && PtrAt(m, x, k) < |m.blocks| && m.used[PtrAt(m, x, k)]
    ensures Sound(Shrunk(m, x, k), s.(own := s.own - {PtrAt(m, x, k)}), x) && OnlyNode(m, Shrunk(m, x, k), x)
  {
    Basics(m, s, x);
    ShrunkOwned(m, s.own, x, k);
    assert IsDir(Shrunk(m, x, k), x) <==> IsDir(m, x);
    StructFrame(m, s.own, s.dirs, x, Shrunk(m, x, k), s.own - {PtrAt(m, x, k)}, x, x);
    SameLive(m, Shrunk(m, x, k), x);
  }

  lemma SameLive(m: Mem, m': Mem, x: nat)
    requires OnlyNode(m, m', x) && (x < |m.nodes| ==> m'.nodes[x].kind == m.nodes[x].kind)
    ensures Live(m') == Live(m)
  {
    forall i: nat ensures i in Live(m') <==> i in Live(m) {}
  }

  lemma DropContents(m: Mem, s: Shape, busy: nat, x: nat, r: nat)
    requires Sound(m, s, busy) && x in s.roots && (x in s.dirs ==> s.dirs[x] == map[])
    requires forall k: nat :: PtrAt(m, x, k) == NO_BLOCK
    requires r in s.roots && r != x && x < |m.nodes|
    ensures TreeAt(WithNode(m, x, FREE_NODE), DropShape(s, x).dirs, r) == TreeAt(m, s.dirs, r)
  {
    var m', s' := WithNode(m, x, FREE_NODE), DropShape(s, x);
    forall p: Path
      ensures Walk(GraphOf(s'.dirs), r, p) == Walk(GraphOf(s.dirs), r, p)
      ensures Walk(GraphOf(s.dirs), r, p) != 0
              ==> ItemOf(m', Walk(GraphOf(s.dirs), r, p)) == ItemOf(m, Walk(GraphOf(s.dirs), r, p))
    {
      hide *;
      DropWalks(m, s, busy, x, r, p);
    }
    hide Sound;
    SameByWalks(m, m', s.dirs, s'.dirs, r);
  }

  lemma DropWalks(m: Mem, s: Shape, busy: nat, x: nat, r: nat, p: Path)
    requires Sound(m, s, busy) && x in s.roots && (x in s.dirs ==> s.dirs[x] == map[])
    requires forall k: nat :: PtrAt(m, x, k) == NO_BLOCK
    requires r in s.roots && r != x && x < |m.nodes|
    ensures var w := Walk(GraphOf(s.dirs), r, p);
            && Walk(GraphOf(DropShape(s, x).dirs), r, p) == w
            && (w != 0 ==> ItemOf(WithNode(m, x, FREE_NODE), w) == ItemOf(m, w))
  {
    assert |m.blocks| < NO_BLOCK;
    hide Struct, Forest, OnlyNode, Walk, ItemOf;
    DropSound(m, s, busy, x);
    var s' := DropShape(s, x);
    WalkAt(GraphOf(s.dirs), s.roots, s.place, r, p);
    WalkAt(GraphOf(s'.dirs), s'.roots, s'.place, r, p);
    Basics(m, s, busy);
    var w, w' := Walk(GraphOf(s.dirs), r, p), Walk(GraphOf(s'.dirs), r, p);
    if w != 0 {
      assert s.place[x] == Place(x, []);
      assert s'.place[w] == Place(r, p);
      ItemFrame(m, WithNode(m, x, FREE_NODE), x, w);
    }
    if w' != 0 { assert s.place[w'] == Place(r, p); }
  }

  /** No name is listed in directory x: nothing exists strictly below it. */
  lemma EmptyDirTree(m: Mem, s: Shape, root: nat, x: nat)
    requires Rooted(m, s, root) && x in s.place && (x in s.dirs ==> s.dirs[x] == map[])
    ensures forall q: Path :: q != [] ==> s.place[x].path + q !in TreeAt(m, s.dirs, root)
  {
    Basics(m, s, 0);
    forall q: Path | q != [] ensures s.place[x].path + q !in TreeAt(m, s.dirs, root) {
      hide *;
      NothingInEmptyDir(m, s, root, x, q);
    }
  }

  lemma NothingInEmptyDir(m: Mem, s: Shape, root: nat, x: nat, q: Path)
    requires Rooted(m, s, root) && x in s.place && (x in s.dirs ==> s.dirs[x] == map[]) && q != []
    ensures s.place[x].path + q !in TreeAt(m, s.dirs, root)
  {
    Basics(m, s, 0);
    RootOf(m, s, 0, x);
    assert x in GraphOf(s.dirs) ==> GraphOf(s.dirs)[x] == map[];
    hide Forest, Walk;
    NothingInEmpty(GraphOf(s.dirs), s.roots, s.place, x, q);
  }

  lemma NothingInEmpty(g: Graph, roots: set<nat>, place: map<nat, Place>, x: nat, q: Path)
    requires Forest(g, roots, place) && x in place && (x in g ==> g[x] == map[]) && q != []
    ensures Walk(g, place[x].root, place[x].path + q) == 0
  {
    assert NodeOk(g, roots, place, x);
    var a := place[x].path;
    assert 0 !in g;
    hide Forest, Walk;
    assert a + q == (a + [q[0]]) + q[1..];
    WalkStep(g, place[x].root, a, q[0]);
    WalkConcat(g, place[x].root, a + [q[0]], q[1..]);
    WalkFromZero(g, q[1..]);
  }

  lemma SomethingBelow(m: Mem, s: Shape, root: nat, x: nat)
    requires Rooted(m, s, root) && x in s.dirs && s.dirs[x] != map[]
    ensures x in s.place && exists q: Path :: q != [] && s.place[x].path + q in TreeAt(m, s.dirs, root)
  {
    Basics(m, s, 0);
    var n :| n in s.dirs[x];
    ListedThere(m, s, root, x, n);
    assert [n] != [] && s.place[x].path + [n] in TreeAt(m, s.dirs, root);
  }

  lemma PruneLeaf(v: Tree, w: Tree, a: Path)
    requires forall q: Path :: q != [] ==> a + q !in v
    requires forall p: Path :: p in w <==> p in v
    requires forall p: Path :: p in v && p != a ==> w[p] == v[p]
    ensures Prune(w, a) == v - {a}
  {
    var left := v - {a};
    forall p: Path
      ensures p in Prune(w, a) <==> p in left
      ensures p in left ==> Prune(w, a)[p] == left[p]
    {
      if a <= p {
        var q := p[|a|..];
        assert p == a + q;
        if q == [] { assert p == a; }
      }
    }
  }

  lemma OthersKept(m: Mem, m': Mem, s: Shape, root: nat, x: nat)
    requires Rooted(m, s, root) && OnlyNode(m, m', x) && x in s.place
    ensures forall p: Path :: p in TreeAt(m, s.dirs, root) && p != s.place[x].path ==>
              TreeAt(m', s.dirs, root)[p] == TreeAt(m, s.dirs, root)[p]
  {
    forall p: Path | p in TreeAt(m, s.dirs, root) && p != s.place[x].path
      ensures TreeAt(m', s.dirs, root)[p] == TreeAt(m, s.dirs, root)[p]
    {
      TreeHasPlaces(m, s, 0, root, p);
      ItemFrame(m, m', x, Walk(GraphOf(s.dirs), root, p));
    }
  }

  /** Delete: the node's blocks were released (m1), its entry is wiped, the node freed. */
  lemma RemoveEffect(m: Mem, s: Shape, root: nat, d: nat, n: Name, m1: Mem, s1: Shape)
    requires Rooted(m, s, root) && d in s.dirs && d in s.place && n in s.dirs[d] && s.dirs[d][n].id in s.place
    requires s.dirs[d][n].id in s.dirs ==> s.dirs[s.dirs[d][n].id] == map[]
    requires s1 == s.(own := s1.own) && Sound(m1, s1, s.dirs[d][n].id) && OnlyNode(m, m1, s.dirs[d][n].id)
    requires forall k: nat :: PtrAt(m1, s.dirs[d][n].id, k) == NO_BLOCK
    ensures PtrAt(m1, d, s.dirs[d][n].k) < |m1.blocks| && s.dirs[d][n].j < ENTRIES_PER_BLOCK && d < |m1.nodes|
            && m1.nodes[d].size > 0
    ensures s.dirs[d][n].id < |m1.nodes| && d != s.dirs[d][n].id
    ensures var x := s.dirs[d][n].id;
            var m3, s3 := WithNode(CutMem(m1, s1, d, n), x, FREE_NODE), DropShape(CutShape(s1, d, n), x);
            && CutMem(m1, s1, d, n).nodes[x].kind != Free
            && Rooted(m3, s3, root)
            && TreeAt(m3, s3.dirs, root) == TreeAt(m, s.dirs, root) - {s.place[d].path + [n]}
  {
    var x := s.dirs[d][n].id;
    NotOwnParent(m, s, root, d, n);
    CutFacts(m, s, root, d, n, d);
    CutSound(m1, s1, x, d, n);
    CutContents(m1, s1, x, d, n);
    var m2, s2 := CutMem(m1, s1, d, n), CutShape(s1, d, n);
    CutFacts1(m1, s1, root, d, n, s);
    CutPtrs(m1, s1, d, n, x);
    Basics(m1, s1, x);
    var a := s.place[d].path + [n];
    hide *;
    DropSound(m2, s2, x, x);
    DropContents(m2, s2, x, x, root);
    EmptyDirTree(m, s, root, x);
    SameKeys(m, m1, s, root);
    OthersKept(m, m1, s, root, x);
    PruneLeaf(TreeAt(m, s.dirs, root), TreeAt(m1, s.dirs, root), a);
    DroppedRoots(s2, root, x);
    IsRooted(WithNode(m2, x, FREE_NODE), DropShape(s2, x), root);
  }

  lemma SameKeys(m: Mem, m1: Mem, s: Shape, root: nat)
    ensures forall p: Path :: p in TreeAt(m1, s.dirs, root) <==> p in TreeAt(m, s.dirs, root)
  {
  }

  lemma DroppedRoots(s: Shape, root: nat, x: nat)
    requires s.roots == {root, x} && root != x && root in s.dirs
    ensures DropShape(s, x).roots == {root} && root in DropShape(s, x).dirs
  {
  }

  lemma NotOwnParent(m: Mem, s: Shape, root: nat, d: nat, n: Name)
    requires Rooted(m, s, root) && d in s.dirs && d in s.place && n in s.dirs[d]
    ensures d != s.dirs[d][n].id && !InSubtree(s.place, s.dirs[d][n].id, d)
    ensures s.dirs[d][n].id in s.place ==> s.place[s.dirs[d][n].id].path == s.place[d].path + [n]
    ensures s.place[d].root == root
  {
    EdgePlace(GraphOf(s.dirs), s.roots, s.place, d, n);
  }

  lemma CutFacts1(m1: Mem, s1: Shape, root: nat, d: nat, n: Name, s: Shape)
    requires s1 == s.(own := s1.own) && d in s.dirs && n in s.dirs[d] && s.dirs[d][n].id in s.place
    requires s.dirs[d][n].id in s.dirs ==> s.dirs[s.dirs[d][n].id] == map[]
    requires d != s.dirs[d][n].id && s.roots == {root} && root in s.dirs
    ensures var x, s2 := s.dirs[d][n].id, CutShape(s1, d, n);
            && s2.roots == {root, x} && root in s2.dirs && (x in s2.dirs ==> s2.dirs[x] == map[])
  {
  }

  lemma CutPtrs(m: Mem, s: Shape, d: nat, n: Name, x: nat)
    requires Sized(m) && d < |m.nodes| && m.nodes[d].size > 0 && d in s.dirs && n in s.dirs[d] && d != x
    requires PtrAt(m, d, s.dirs[d][n].k) < |m.blocks| && s.dirs[d][n].j < ENTRIES_PER_BLOCK
    requires forall k: nat :: PtrAt(m, x, k) == NO_BLOCK
    ensures forall k: nat :: PtrAt(CutMem(m, s, d, n), x, k) == NO_BLOCK
  {
    forall k: nat ensures PtrAt(CutMem(m, s, d, n), x, k) == PtrAt(m, x, k) {}
  }

  // ----- move

  /** Entering in one directory and wiping in another commute. */
  lemma MoveCommutes(m: Mem, s: Shape, d: nat, n: Name, d2: nat, t: Spot, e: Entry)
    requires Sound(m, s, 0) && d in s.dirs && n in s.dirs[d] && d2 != d && d2 in s.dirs && SpotFits(m, d2, t)
    requires PtrAt(m, d, s.dirs[d][n].k) < |m.blocks| && s.dirs[d][n].j < ENTRIES_PER_BLOCK && d < |m.nodes|
             && m.nodes[d].size > 0
    ensures SpotFits(CutMem(m, s, d, n), d2, t)
    ensures var m1 := Added(m, d2, t, e);
            && Sized(m1) && d < |m1.nodes| && m1.nodes[d] == m.nodes[d]
            && PtrAt(m1, d, s.dirs[d][n].k) == PtrAt(m, d, s.dirs[d][n].k) < |m1.blocks|
            && Written(m1, d, s.dirs[d][n].k, s.dirs[d][n].j, EMPTY_ENTRY, m1.nodes[d].size - 1)
               == Added(CutMem(m, s, d, n), d2, t, e)
  {
    MoveBlocksApart(m, s, d, n, d2, t);
    CutSound(m, s, 0, d, n);
    AddedSized(m, s.own, s.dirs, d2, t, e);
    assert Sized(m);
    hide Struct, Forest, Owned, IsData, OnlyNode;
    var slot := s.dirs[d][n];
    CutKeepsSpot(m, d, slot.k, slot.j, d2, t);
    WritesCommute(m, d, slot.k, slot.j, d2, t, e);
  }

  lemma CutKeepsSpot(m: Mem, d: nat, k: nat, j: nat, d2: nat, t: Spot)
    requires Sized(m) && d < |m.nodes| && m.nodes[d].size > 0 && PtrAt(m, d, k) < |m.blocks| && j < ENTRIES_PER_BLOCK
    requires Sized(Written(m, d, k, j, EMPTY_ENTRY, m.nodes[d].size - 1))
    requires d2 != d && SpotFits(m, d2, t) && PtrAt(m, d, k) != t.block
    ensures SpotFits(Written(m, d, k, j, EMPTY_ENTRY, m.nodes[d].size - 1), d2, t)
  {
    hide Sized;
    var c := Written(m, d, k, j, EMPTY_ENTRY, m.nodes[d].size - 1);
    forall l: nat ensures PtrAt(c, d2, l) == PtrAt(m, d2, l) {}
    assert !t.grew ==> EntryAt(c, d2, t.k, t.j) == EntryAt(m, d2, t.k, t.j);
  }

  lemma WritesCommute(m: Mem, d: nat, k: nat, j: nat, d2: nat, t: Spot, e: Entry)
    requires Sized(m) && d < |m.nodes| && m.nodes[d].size > 0 && PtrAt(m, d, k) < |m.blocks| && j < ENTRIES_PER_BLOCK
    requires d2 != d && SpotFits(m, d2, t) && PtrAt(m, d, k) != t.block && Sized(Added(m, d2, t, e))
    requires SpotFits(Written(m, d, k, j, EMPTY_ENTRY, m.nodes[d].size - 1), d2, t)
    ensures var m1 := Added(m, d2, t, e);
            && d < |m1.nodes| && m1.nodes[d] == m.nodes[d] && PtrAt(m1, d, k) == PtrAt(m, d, k) < |m1.blocks|
            && Written(m1, d, k, j, EMPTY_ENTRY, m1.nodes[d].size - 1)
               == Added(Written(m, d, k, j, EMPTY_ENTRY, m.nodes[d].size - 1), d2, t, e)
  {
    var m1 := Added(m, d2, t, e);
    assert m1.nodes[d] == m.nodes[d];
    assert PtrAt(m1, d, k) == PtrAt(m, d, k);
    var c := Written(m, d, k, j, EMPTY_ENTRY, m.nodes[d].size - 1);
    hide Sized, IsData;
    assert PtrAt(GrownAt(c, d2, t), d2, t.k) == PtrAt(GrownAt(m, d2, t), d2, t.k) == t.block;
    var m2 := Written(m1, d, k, j, EMPTY_ENTRY, m1.nodes[d].size - 1);
    assert m2.nodes == Added(c, d2, t, e).nodes;
    assert m2.blocks == Added(c, d2, t, e).blocks;
  }

  lemma MoveBlocksApart(m: Mem, s: Shape, d: nat, n: Name, d2: nat, t: Spot)
    requires Sound(m, s, 0) && d in s.dirs && n in s.dirs[d] && d2 != d && SpotFits(m, d2, t)
    ensures PtrAt(m, d, s.dirs[d][n].k) != t.block
  {
    assert EntryAt(m, d, s.dirs[d][n].k, s.dirs[d][n].j).id != 0;
  }

  lemma AddedSized(m: Mem, own: map<nat, Owner>, dirs: Dirs, d: nat, t: Spot, e: Entry)
    requires Struct(m, own, dirs, 0) && d in dirs && SpotFits(m, d, t)
    ensures Sized(Added(m, d, t, e))
  {
    assert IsDir(m, d);
    if t.grew { GrownOwned(m, own, d, t.k, t.block, Blank); }
    WrittenOwned(GrownAt(m, d, t), SpotOwn(own, d, t), d, t.k, t.j, e, m.nodes[d].size + 1);
  }
}
