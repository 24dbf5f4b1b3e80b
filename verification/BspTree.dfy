// The tree as users see it, and what attaching, detaching, adding and dropping nodes does to it.
module BspTree {
  import opened BspTypes
  import opened BspPaths
  import opened BspForest
  import opened BspState
  import opened BspStore
  import opened BspDirectory

  // ----- operations on trees

  /** The subtree at `a`. */
  ghost function Sub(v: Tree, a: Path): Tree {
    imap p: Path | a + p in v :: v[a + p]
  }

  /** The tree without what is at or below `a`. */
  ghost function Prune(v: Tree, a: Path): Tree {
    imap p: Path | p in v && !(a <= p) :: v[p]
  }

  /** The tree with `w` put at `b`. */
  ghost function Graft(v: Tree, b: Path, w: Tree): Tree {
    imap p: Path | (if b <= p then p[|b|..] in w else p in v) :: if b <= p then w[p[|b|..]] else v[p]
  }

  ghost function Leaf(i: Item): Tree {
    imap[[] := i]
  }

  /** Whatever exists has a parent that exists. */
  ghost predicate PrefixClosed(v: Tree) {
    forall p: Path, q: Path {:trigger p + q in v} :: p + q in v ==> p in v
  }

  lemma GraftLeaf(v: Tree, b: Path, i: Item)
    requires PrefixClosed(v) && b !in v
    ensures Graft(v, b, Leaf(i)) == v[b := i]
  {
    var w := v[b := i];
    forall p: Path
      ensures p in Graft(v, b, Leaf(i)) <==> p in w
      ensures p in w ==> Graft(v, b, Leaf(i))[p] == w[p]
    {
      if b <= p {
        var q := p[|b|..];
        assert p == b + q;
        if q == [] { assert p == b; } else { assert q !in Leaf(i); assert b + q !in v; assert p != b; }
      }
    }
  }

  /** Where a walk from a root ends is the one node with that place. */
  lemma WalkAt(g: Graph, roots: set<nat>, place: map<nat, Place>, r: nat, p: Path)
    requires Forest(g, roots, place) && r in roots
    ensures Walk(g, r, p) != 0 ==> Walk(g, r, p) in place && place[Walk(g, r, p)] == Place(r, p)
    ensures forall y <- place :: place[y] == Place(r, p) ==> y == Walk(g, r, p)
  {
    if Walk(g, r, p) != 0 { WalkPlace(g, roots, place, r, p); }
    forall y <- place | place[y] == Place(r, p) ensures y == Walk(g, r, p) {
      assert NodeOk(g, roots, place, y);
    }
  }

  lemma TreePrefixClosed(m: Mem, s: Shape, busy: nat, r: nat)
    requires Sound(m, s, busy)
    ensures PrefixClosed(TreeAt(m, s.dirs, r))
  {
    Basics(m, s, busy);
    forall p: Path, q: Path | p + q in TreeAt(m, s.dirs, r) ensures p in TreeAt(m, s.dirs, r) {
      WalkConcat(GraphOf(s.dirs), r, p, q);
      WalkFromZero(GraphOf(s.dirs), q);
    }
  }

  // ----- trees of changed graphs

  lemma EdgePlace(g: Graph, roots: set<nat>, place: map<nat, Place>, d: nat, n: Name)
    requires Forest(g, roots, place) && d in g && n in g[d]
    ensures d in place && g[d][n] in place && g[d][n] !in roots && 0 !in g
    ensures place[d].root in roots
    ensures place[g[d][n]] == Place(place[d].root, place[d].path + [n])
  {
    assert EdgeOk(g, roots, place, d, n);
    assert NodeOk(g, roots, place, d);
  }

  lemma NothingBelow(g: Graph, roots: set<nat>, place: map<nat, Place>, d: nat, n: Name, q: Path)
    requires Forest(g, roots, place) && d in g && n !in g[d]
    ensures d in place && Walk(g, place[d].root, place[d].path + [n] + q) == 0
  {
    var b := place[d].path + [n];
    assert NodeOk(g, roots, place, d);
    WalkStep(g, place[d].root, place[d].path, n);
    WalkConcat(g, place[d].root, b, q);
    WalkFromZero(g, q);
  }

  /** Hanging tree `x` under `d` grafts it there, and changes no other tree. */
  lemma AttachTree(g: Graph, roots: set<nat>, place: map<nat, Place>, d: nat, n: Name, x: nat, r: nat, p: Path)
    requires Forest(g, roots, place)
    requires d in g && n !in g[d] && x in roots && place[d].root != x && r in roots && r != x
    ensures var b := place[d].path + [n];
            Walk(AddEdge(g, d, n, x), r, p) ==
            if r == place[d].root && b <= p then Walk(g, x, p[|b|..]) else Walk(g, r, p)
  {
    var h := AddEdge(g, d, n, x);
    var place' := AttachedPlace(place, d, n, x);
    var b := place[d].path + [n];
    Attach(g, roots, place, d, n, x);
    WalkAt(g, roots, place, r, p);
    WalkAt(h, roots - {x}, place', r, p);
    var y := Walk(h, r, p);
    if r == place[d].root && b <= p {
      var q := p[|b|..];
      assert p == b + q;
      WalkAt(g, roots, place, x, q);
      NothingBelow(g, roots, place, d, n, q);
      var w := Walk(g, x, q);
      if w != 0 { assert place'[w] == Place(r, p); }
      if y != 0 {
        assert place[y].root == x;
        assert place'[y].path[|b|..] == place[y].path;
        assert place[y] == Place(x, q);
      }
    } else {
      var w := Walk(g, r, p);
      if w != 0 { assert place'[w] == Place(r, p); }
      forall z <- place | place[z].root == x ensures z in place' && b <= place'[z].path {}
    }
  }

  /** Cutting the entry of `x` prunes the tree it was in. */
  lemma PrunedTree(g: Graph, roots: set<nat>, place: map<nat, Place>, d: nat, n: Name, p: Path)
    requires Forest(g, roots, place) && d in g && n in g[d]
    ensures d in place
    ensures Walk(CutEdge(g, d, n), place[d].root, p) ==
            if place[d].path + [n] <= p then 0 else Walk(g, place[d].root, p)
  {
    var h := CutEdge(g, d, n);
    var x := g[d][n];
    EdgePlace(g, roots, place, d, n);
    var r := place[d].root;
    var place' := DetachedPlace(place, x);
    Detach(g, roots, place, d, n, x);
    WalkAt(g, roots, place, r, p);
    WalkAt(h, roots + {x}, place', r, p);
    var y, z := Walk(g, r, p), Walk(h, r, p);
    if z != 0 {
      assert place'[z] == DetachedAt(place, x, z);
      assert !InSubtree(place, x, z);
    }
    if y != 0 {
      assert place'[y] == DetachedAt(place, x, y);
    }
  }

  /** ... and leaves what was below the entry whole. */
  lemma SeveredTree(g: Graph, roots: set<nat>, place: map<nat, Place>, d: nat, n: Name, p: Path)
    requires Forest(g, roots, place) && d in g && n in g[d]
    ensures d in place
    ensures Walk(CutEdge(g, d, n), g[d][n], p) == Walk(g, place[d].root, place[d].path + [n] + p)
  {
    var h := CutEdge(g, d, n);
    var x := g[d][n];
    EdgePlace(g, roots, place, d, n);
    var r, a := place[d].root, place[d].path + [n];
    var place' := DetachedPlace(place, x);
    Detach(g, roots, place, d, n, x);
    WalkAt(g, roots, place, r, a + p);
    WalkAt(h, roots + {x}, place', x, p);
    var y, z := Walk(g, r, a + p), Walk(h, x, p);
    if y != 0 {
      assert InSubtree(place, x, y);
      assert (a + p)[|a|..] == p;
      assert place'[y] == DetachedAt(place, x, y) == Place(x, p);
    }
    if z != 0 {
      assert place'[z] == DetachedAt(place, x, z);
      assert NodeOk(g, roots, place, z);
      assert InSubtree(place, x, z);
      assert place[z].path == a + p;
    }
  }

  // ----- sound states, one step at a time

  function NewRootShape(s: Shape, x: nat, kind: Kind): Shape {
    s.(dirs := NewDirs(s.dirs, x, kind), roots := s.roots + {x}, place := s.place[x := Place(x, [])])
  }

  lemma NewRootSound(m: Mem, s: Shape, busy: nat, x: nat, kind: Kind)
    requires Sound(m, s, busy) && 0 < x < |m.nodes| && m.nodes[x].kind == Free && kind != Free && x != busy
    ensures var m' := WithNode(m, x, ClearNode(kind));
            Sound(m', NewRootShape(s, x, kind), busy) && OnlyNode(m, m', x) && x !in s.place
  {
    NodeAdded(m, s.own, s.dirs, busy, x, kind);
    assert x !in Live(m);
    GraphNew(s.dirs, x, kind);
    AddRoot(GraphOf(s.dirs), s.roots, s.place, x, GraphOf(NewDirs(s.dirs, x, kind)));
  }

  ghost function AttachShape(s: Shape, d: nat, t: Spot, x: nat, n: Name): Shape
    requires d in s.dirs && d in s.place
  {
    s.(own := SpotOwn(s.own, d, t), dirs := s.dirs[d := s.dirs[d][n := Slot(t.k, t.j, x)]],
       roots := s.roots - {x}, place := AttachedPlace(s.place, d, n, x))
  }

  lemma AttachSound(m: Mem, s: Shape, busy: nat, d: nat, t: Spot, x: nat, n: Name)
    requires Sound(m, s, busy) && d in s.dirs && d in s.place && d != busy && SpotFits(m, d, t)
    requires ValidName(n) && n !in s.dirs[d] && x in s.roots && s.place[d].root != x
    ensures x != 0
    ensures var m' := Added(m, d, t, Entry(x, n));
            Sound(m', AttachShape(s, d, t, x, n), busy) && OnlyNode(m, m', d) && Live(m') == Live(m)
  {
    Basics(m, s, busy);
    FoundIffNamed(m, d, s.dirs[d], n);
    AddedStruct(m, s.own, s.dirs, busy, d, t, x, n);
    GraphGains(s.dirs, d, n, Slot(t.k, t.j, x));
    Attach(GraphOf(s.dirs), s.roots, s.place, d, n, x);
  }

  ghost function CutMem(m: Mem, s: Shape, d: nat, n: Name): Mem
    requires Sized(m) && d < |m.nodes| && m.nodes[d].size > 0 && d in s.dirs && n in s.dirs[d]
    requires PtrAt(m, d, s.dirs[d][n].k) < |m.blocks| && s.dirs[d][n].j < ENTRIES_PER_BLOCK
  {
    Written(m, d, s.dirs[d][n].k, s.dirs[d][n].j, EMPTY_ENTRY, m.nodes[d].size - 1)
  }

  ghost function CutShape(s: Shape, d: nat, n: Name): Shape
    requires d in s.dirs && n in s.dirs[d] && s.dirs[d][n].id in s.place
  {
    var x := s.dirs[d][n].id;
    s.(dirs := s.dirs[d := s.dirs[d] - {n}], roots := s.roots + {x}, place := DetachedPlace(s.place, x))
  }

  lemma CutSound(m: Mem, s: Shape, busy: nat, d: nat, n: Name)
    requires Sound(m, s, busy) && d in s.dirs && d != busy && n in s.dirs[d]
    ensures PtrAt(m, d, s.dirs[d][n].k) < |m.blocks| && s.dirs[d][n].j < ENTRIES_PER_BLOCK && d < |m.nodes|
            && m.nodes[d].size > 0
    ensures s.dirs[d][n].id in s.place && s.dirs[d][n].id !in s.roots && !InSubtree(s.place, s.dirs[d][n].id, d)
    ensures Sound(CutMem(m, s, d, n), CutShape(s, d, n), busy) && OnlyNode(m, CutMem(m, s, d, n), d)
  {
    hide Forest, Struct;
    var x := s.dirs[d][n].id;
    EdgePlace(GraphOf(s.dirs), s.roots, s.place, d, n);
    DirLoses(m, s.own, s.dirs, busy, d, n);
    GraphLoses(s.dirs, d, n);
    Detach(GraphOf(s.dirs), s.roots, s.place, d, n, x);
  }

  ghost function DropShape(s: Shape, x: nat): Shape {
    s.(dirs := s.dirs - {x}, roots := s.roots - {x}, place := s.place - {x})
  }

  lemma DropSound(m: Mem, s: Shape, busy: nat, x: nat)
    requires Sound(m, s, busy) && x in s.roots && (x in s.dirs ==> s.dirs[x] == map[])
    requires forall k: nat :: PtrAt(m, x, k) == NO_BLOCK
    ensures 0 < x < |m.nodes|
    ensures var m' := WithNode(m, x, FREE_NODE);
            Sound(m', DropShape(s, x), if busy == x then 0 else busy) && OnlyNode(m, m', x)
  {
    Basics(m, s, busy);
    NodeDropped(m, s.own, s.dirs, busy, x);
    GraphDrop(s.dirs, x);
    DropRoot(GraphOf(s.dirs), s.roots, s.place, x);
  }

  /** Items of a tree change only with the one node that changed. */
  lemma ItemsKept(m: Mem, m': Mem, d: nat)
    requires OnlyNode(m, m', d) && |m.blocks| < NO_BLOCK
    requires !IsFile(m, d) && !IsFile(m', d)
    ensures forall y: nat :: ItemOf(m', y) == ItemOf(m, y)
  {
    forall y: nat ensures ItemOf(m', y) == ItemOf(m, y) {
      if y != d { ItemFrame(m, m', d, y); }
    }
  }

  /** The tree below a root depends on the walks and on the items they end at. */
  lemma TreeByWalks(m: Mem, dirs: Dirs, r: nat, p: Path)
    ensures p in TreeAt(m, dirs, r) <==> Walk(GraphOf(dirs), r, p) != 0
    ensures p in TreeAt(m, dirs, r) ==> TreeAt(m, dirs, r)[p] == ItemOf(m, Walk(GraphOf(dirs), r, p))
  {
  }

  lemma AttachContents(m: Mem, s: Shape, busy: nat, d: nat, t: Spot, x: nat, n: Name, r: nat)
    requires Sound(m, s, busy) && d in s.dirs && d in s.place && d != busy && SpotFits(m, d, t)
    requires ValidName(n) && n !in s.dirs[d] && x in s.roots && s.place[d].root != x
    requires r in s.roots && r != x
    ensures var m' := Added(m, d, t, Entry(x, n));
            var s' := AttachShape(s, d, t, x, n);
            TreeAt(m', s'.dirs, r) ==
            if r == s.place[d].root
            then Graft(TreeAt(m, s.dirs, r), s.place[d].path + [n], TreeAt(m, s.dirs, x))
            else TreeAt(m, s.dirs, r)
  {
    hide Forest, Struct, OnlyNode, ItemOf, SpotFits, Added, TreeAt, Walk;
    var m' := Added(m, d, t, Entry(x, n));
    var s' := AttachShape(s, d, t, x, n);
    AttachSound(m, s, busy, d, t, x, n);
    SameItems(m, s, m', s', busy, d);
    GraphGains(s.dirs, d, n, Slot(t.k, t.j, x));
    var b := s.place[d].path + [n];
    forall p: Path
      ensures p in TreeAt(m', s'.dirs, r) <==>
              if r == s.place[d].root && b <= p then p[|b|..] in TreeAt(m, s.dirs, x) else p in TreeAt(m, s.dirs, r)
      ensures p in TreeAt(m', s'.dirs, r) ==>
                (TreeAt(m', s'.dirs, r)[p] ==
                 if r == s.place[d].root && b <= p then TreeAt(m, s.dirs, x)[p[|b|..]] else TreeAt(m, s.dirs, r)[p])
    {
      AttachTree(GraphOf(s.dirs), s.roots, s.place, d, n, x, r, p);
      TreeByWalks(m', s'.dirs, r, p);
      TreeByWalks(m, s.dirs, r, p);
      if b <= p { TreeByWalks(m, s.dirs, x, p[|b|..]); }
    }
  }

  lemma SameItems(m: Mem, s: Shape, m': Mem, s': Shape, busy: nat, d: nat)
    requires Sound(m, s, busy) && Sound(m', s', busy) && OnlyNode(m, m', d) && d in s.dirs && d in s'.dirs
    ensures forall y: nat :: ItemOf(m', y) == ItemOf(m, y)
  {
    Basics(m, s, busy);
    Basics(m', s', busy);
    ItemsKept(m, m', d);
  }

  lemma CutContents(m: Mem, s: Shape, busy: nat, d: nat, n: Name)
    requires Sound(m, s, busy) && d in s.dirs && d in s.place && d != busy && n in s.dirs[d]
    requires PtrAt(m, d, s.dirs[d][n].k) < |m.blocks| && s.dirs[d][n].j < ENTRIES_PER_BLOCK && d < |m.nodes|
             && m.nodes[d].size > 0
    requires s.dirs[d][n].id in s.place
    ensures var m' := CutMem(m, s, d, n);
            var s' := CutShape(s, d, n);
            var x := s.dirs[d][n].id;
            var r := s.place[d].root;
            var a := s.place[d].path + [n];
            && TreeAt(m', s'.dirs, r) == Prune(TreeAt(m, s.dirs, r), a)
            && TreeAt(m', s'.dirs, x) == Sub(TreeAt(m, s.dirs, r), a)
  {
    assert Sized(m);
    CutSound(m, s, busy, d, n);
    var m' := CutMem(m, s, d, n);
    var s' := CutShape(s, d, n);
    SameItems(m, s, m', s', busy, d);
    hide *;
    var x := s.dirs[d][n].id;
    var r := s.place[d].root;
    var a := s.place[d].path + [n];
    var g, h := GraphOf(s.dirs), GraphOf(s'.dirs);
    forall p: Path
      ensures Walk(h, r, p) == if a <= p then 0 else Walk(g, r, p)
      ensures Walk(h, x, p) == Walk(g, r, a + p)
    {
      CutWalks(m, s, busy, d, n, p);
    }
    PrunedByWalks(m, m', s.dirs, s'.dirs, r, a);
    SubByWalks(m, m', s.dirs, s'.dirs, r, x, a);
  }

  lemma CutWalks(m: Mem, s: Shape, busy: nat, d: nat, n: Name, p: Path)
    requires Sound(m, s, busy) && d in s.dirs && d in s.place && n in s.dirs[d] && s.dirs[d][n].id in s.place
    ensures var h := GraphOf(CutShape(s, d, n).dirs);
            var g := GraphOf(s.dirs);
            var r := s.place[d].root;
            var a := s.place[d].path + [n];
            && Walk(h, r, p) == (if a <= p then 0 else Walk(g, r, p))
            && Walk(h, s.dirs[d][n].id, p) == Walk(g, r, a + p)
  {
    hide Struct, Walk, Forest;
    GraphLoses(s.dirs, d, n);
    PrunedTree(GraphOf(s.dirs), s.roots, s.place, d, n, p);
    SeveredTree(GraphOf(s.dirs), s.roots, s.place, d, n, p);
  }

  lemma PrunedByWalks(m: Mem, m': Mem, dirs: Dirs, dirs': Dirs, r: nat, a: Path)
    requires forall y: nat :: ItemOf(m', y) == ItemOf(m, y)
    requires forall p: Path :: Walk(GraphOf(dirs'), r, p) == if a <= p then 0 else Walk(GraphOf(dirs), r, p)
    ensures TreeAt(m', dirs', r) == Prune(TreeAt(m, dirs, r), a)
  {
    hide ItemOf, Walk;
  }

  lemma SubByWalks(m: Mem, m': Mem, dirs: Dirs, dirs': Dirs, r: nat, x: nat, a: Path)
    requires forall y: nat :: ItemOf(m', y) == ItemOf(m, y)
    requires forall p: Path :: Walk(GraphOf(dirs'), x, p) == Walk(GraphOf(dirs), r, a + p)
    ensures TreeAt(m', dirs', x) == Sub(TreeAt(m, dirs, r), a)
  {
    hide ItemOf, Walk;
  }
}
