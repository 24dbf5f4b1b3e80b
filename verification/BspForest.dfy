// Directory graphs as forests. A graph gives every directory its named children; a place says
// from which root, and along which names, a node is reached.
module BspForest {
  import opened BspTypes

  type Path = seq<Name>
  type Graph = map<nat, map<Name, nat>>

  datatype Place = Place(root: nat, path: Path)

  /** The node reached from `r` along `p`, or 0. */
  function Walk(g: Graph, r: nat, p: Path): nat {
    if p == [] then r
    else
      var d := Walk(g, r, p[..|p|-1]);
      if d in g && p[|p|-1] in g[d] then g[d][p[|p|-1]] else 0
  }

  function AddEdge(g: Graph, d: nat, n: Name, x: nat): Graph
    requires d in g
  {
    var names: map<Name, nat> := g[d][n := x];
    g[d := names]
  }

  function CutEdge(g: Graph, d: nat, n: Name): Graph
    requires d in g
  {
    var names: map<Name, nat> := g[d] - {n};
    g[d := names]
  }

  /** An edge leads to a non-root whose place is one name further. */
  ghost predicate EdgeOk(g: Graph, roots: set<nat>, place: map<nat, Place>, d: nat, n: Name) {
    d in g && n in g[d] && d in place ==>
      && g[d][n] in place && g[d][n] !in roots
      && place[g[d][n]] == Place(place[d].root, place[d].path + [n])
  }

  /** A node is reached from a root along its place. */
  ghost predicate NodeOk(g: Graph, roots: set<nat>, place: map<nat, Place>, x: nat) {
    x in place ==>
      && place[x].root in roots
      && Walk(g, place[x].root, place[x].path) == x
  }

  /** The graph is a forest over `roots`, and `place` says where each of its nodes is. */
  ghost predicate Forest(g: Graph, roots: set<nat>, place: map<nat, Place>) {
    && 0 !in place
    && g.Keys <= place.Keys
    && roots <= place.Keys
    && (forall r <- roots :: place[r] == Place(r, []))
    && (forall d: nat, n: Name {:trigger EdgeOk(g, roots, place, d, n)} :: EdgeOk(g, roots, place, d, n))
    && (forall x: nat {:trigger NodeOk(g, roots, place, x)} :: NodeOk(g, roots, place, x))
  }

  ghost predicate InSubtree(place: map<nat, Place>, x: nat, y: nat) {
    && x in place && y in place
    && place[y].root == place[x].root
    && place[x].path <= place[y].path
  }

  lemma {:induction false} WalkPlace(g: Graph, roots: set<nat>, place: map<nat, Place>, r: nat, p: Path)
    requires Forest(g, roots, place) && r in roots && Walk(g, r, p) != 0
    ensures Walk(g, r, p) in place && place[Walk(g, r, p)] == Place(r, p)
  {
    if p != [] {
      var d := Walk(g, r, p[..|p|-1]);
      WalkPlace(g, roots, place, r, p[..|p|-1]);
      assert EdgeOk(g, roots, place, d, p[|p|-1]);
      assert p == p[..|p|-1] + [p[|p|-1]];
    }
  }

  lemma {:induction false} WalkFromZero(g: Graph, p: Path)
    requires 0 !in g
    ensures Walk(g, 0, p) == 0
  {
    if p != [] { WalkFromZero(g, p[..|p|-1]); }
  }

  lemma {:induction false} WalkConcat(g: Graph, r: nat, p: Path, q: Path)
    ensures Walk(g, r, p + q) == Walk(g, Walk(g, r, p), q)
  {
    if q == [] {
      assert p + q == p;
    } else {
      assert (p + q)[..|p + q|-1] == p + q[..|q|-1];
      WalkConcat(g, r, p, q[..|q|-1]);
    }
  }

  lemma WalkStep(g: Graph, r: nat, p: Path, n: Name)
    ensures var d := Walk(g, r, p);
            Walk(g, r, p + [n]) == if d in g && n in g[d] then g[d][n] else 0
  {
    assert (p + [n])[..|p|] == p;
  }

  /** The node one name above `y`. */
  lemma ParentOf(g: Graph, roots: set<nat>, place: map<nat, Place>, y: nat) returns (z: nat, n: Name)
    requires Forest(g, roots, place) && y in place && y !in roots
    ensures z in g && z in place && n in g[z] && g[z][n] == y
    ensures place[y] == Place(place[z].root, place[z].path + [n])
  {
    assert NodeOk(g, roots, place, y);
    var p := place[y].path;
    z := Walk(g, place[y].root, p[..|p|-1]);
    n := p[|p|-1];
    WalkPlace(g, roots, place, place[y].root, p[..|p|-1]);
    assert p == p[..|p|-1] + [n];
  }

  lemma RootIffEmpty(g: Graph, roots: set<nat>, place: map<nat, Place>, y: nat)
    requires Forest(g, roots, place) && y in place
    ensures y in roots <==> place[y].path == []
    ensures y in roots ==> place[y].root == y
  {
    assert NodeOk(g, roots, place, y);
  }

  lemma SamePlace(g: Graph, roots: set<nat>, place: map<nat, Place>, x: nat, y: nat)
    requires Forest(g, roots, place) && x in place && y in place && place[x] == place[y]
    ensures x == y
  {
    assert NodeOk(g, roots, place, x);
    assert NodeOk(g, roots, place, y);
  }

  /** Two entries never lead to the same node. */
  lemma OneParent(g: Graph, roots: set<nat>, place: map<nat, Place>, c: nat, m: Name, d: nat, n: Name)
    requires Forest(g, roots, place)
    requires c in g && m in g[c] && d in g && n in g[d] && g[c][m] == g[d][n]
    ensures c == d && m == n
  {
    assert EdgeOk(g, roots, place, c, m);
    assert EdgeOk(g, roots, place, d, n);
    LastName(place[c].path, m, place[d].path, n);
    SamePlace(g, roots, place, c, d);
  }

  lemma LastName(p: Path, m: Name, q: Path, n: Name)
    requires p + [m] == q + [n]
    ensures p == q && m == n
  {
    assert |p| == |q|;
    assert p == (p + [m])[..|p|];
    assert q == (q + [n])[..|q|];
    assert (p + [m])[|p|] == (q + [n])[|q|];
  }

  lemma {:induction false} WalkGrows(g: Graph, h: Graph, r: nat, p: Path)
    requires 0 !in g
    requires forall d <- g :: d in h && forall n <- g[d] :: n in h[d] && h[d][n] == g[d][n]
    requires Walk(g, r, p) != 0
    ensures Walk(h, r, p) == Walk(g, r, p)
  {
    if p != [] { WalkGrows(g, h, r, p[..|p|-1]); }
  }

  ghost predicate AgreeOn(g: Graph, h: Graph, s: set<nat>) {
    forall d <- s ::
      && (d in g <==> d in h)
      && (d in g ==> g[d] == h[d] && forall n <- g[d] :: g[d][n] in s)
  }

  lemma {:induction false} WalkAgrees(g: Graph, h: Graph, s: set<nat>, r: nat, p: Path)
    requires r in s && 0 !in g && 0 !in h && AgreeOn(g, h, s)
    ensures Walk(g, r, p) == Walk(h, r, p)
    ensures Walk(g, r, p) in s || Walk(g, r, p) == 0
  {
    if p != [] { WalkAgrees(g, h, s, r, p[..|p|-1]); }
  }

  // ----- the four steps every operation is made of

  /** A fresh node becomes a tree of its own. */
  lemma AddRoot(g: Graph, roots: set<nat>, place: map<nat, Place>, x: nat, h: Graph)
    requires Forest(g, roots, place) && x !in place && x != 0
    requires h == g || h == g[x := map[]]
    ensures Forest(h, roots + {x}, place[x := Place(x, [])])
  {
    var place' := place[x := Place(x, [])];
    forall d: nat, n: Name ensures EdgeOk(h, roots + {x}, place', d, n) {
      assert EdgeOk(g, roots, place, d, n);
    }
    forall y: nat ensures NodeOk(h, roots + {x}, place', y) {
      if y in place' && y != x {
        assert NodeOk(g, roots, place, y);
        WalkGrows(g, h, place[y].root, place[y].path);
      }
    }
  }

  /** A lone root leaves. */
  lemma DropRoot(g: Graph, roots: set<nat>, place: map<nat, Place>, x: nat)
    requires Forest(g, roots, place) && x in roots && (x in g ==> g[x] == map[])
    ensures Forest(g - {x}, roots - {x}, place - {x})
  {
    var h := g - {x};
    forall d: nat, n: Name ensures EdgeOk(h, roots - {x}, place - {x}, d, n) {
      assert EdgeOk(g, roots, place, d, n);
    }
    forall y: nat ensures NodeOk(h, roots - {x}, place - {x}, y) {
      if y in place - {x} { LoneRoot(g, roots, place, x, y); }
    }
  }

  lemma {:induction false} LoneRoot(g: Graph, roots: set<nat>, place: map<nat, Place>, x: nat, y: nat)
    requires Forest(g, roots, place) && x in roots && (x in g ==> g[x] == map[])
    requires y in place && y != x
    ensures place[y].root != x && place[y].root in roots
    ensures Walk(g - {x}, place[y].root, place[y].path) == y
    decreases |place[y].path|
  {
    RootIffEmpty(g, roots, place, y);
    assert NodeOk(g, roots, place, y);
    if y !in roots {
      var z, n := ParentOf(g, roots, place, y);
      LoneRoot(g, roots, place, x, z);
      WalkStep(g - {x}, place[z].root, place[z].path, n);
    }
  }

  function AttachedPlace(place: map<nat, Place>, d: nat, n: Name, x: nat): map<nat, Place>
    requires d in place
  {
    map y | y in place ::
      if place[y].root == x then Place(place[d].root, place[d].path + [n] + place[y].path) else place[y]
  }

  /** A tree is hung under `d`, which is not one of its nodes. */
  lemma Attach(g: Graph, roots: set<nat>, place: map<nat, Place>, d: nat, n: Name, x: nat)
    requires Forest(g, roots, place)
    requires d in g && n !in g[d] && x in roots && place[d].root != x
    ensures Forest(AddEdge(g, d, n, x), roots - {x}, AttachedPlace(place, d, n, x))
  {
    var h := AddEdge(g, d, n, x);
    var place' := AttachedPlace(place, d, n, x);
    var q := place[d].path + [n];
    assert NodeOk(g, roots, place, d);
    forall c: nat, m: Name ensures EdgeOk(h, roots - {x}, place', c, m) {
      assert EdgeOk(g, roots, place, c, m);
      if c == d && m == n {
        assert q + [] == q;
      } else if c in place {
        assert q + (place[c].path + [m]) == (q + place[c].path) + [m];
      }
    }
    WalkGrows(g, h, place[d].root, place[d].path);
    WalkStep(h, place[d].root, place[d].path, n);
    forall y: nat ensures NodeOk(h, roots - {x}, place', y) {
      assert NodeOk(g, roots, place, y);
      if y in place {
        WalkGrows(g, h, place[y].root, place[y].path);
        if place[y].root == x { WalkConcat(h, place[d].root, q, place[y].path); }
      }
    }
  }

  ghost function DetachedAt(place: map<nat, Place>, x: nat, y: nat): Place
    requires x in place && y in place
  {
    if InSubtree(place, x, y) then Place(x, place[y].path[|place[x].path|..]) else place[y]
  }

  ghost function DetachedPlace(place: map<nat, Place>, x: nat): map<nat, Place>
    requires x in place
  {
    map y | y in place :: DetachedAt(place, x, y)
  }

  /** One step down stays in a subtree, and enters it only at its top. */
  lemma SubtreeStep(g: Graph, roots: set<nat>, place: map<nat, Place>, x: nat, z: nat, m: Name)
    requires Forest(g, roots, place) && x in place && z in g && m in g[z] && g[z][m] != x
    ensures g[z][m] in place
    ensures InSubtree(place, x, z) <==> InSubtree(place, x, g[z][m])
    ensures InSubtree(place, x, z) ==>
              place[g[z][m]].path[|place[x].path|..] == place[z].path[|place[x].path|..] + [m]
  {
    assert EdgeOk(g, roots, place, z, m);
    var y := g[z][m];
    var px := place[x].path;
    if InSubtree(place, x, z) {
      assert px <= place[z].path + [m];
    } else if InSubtree(place, x, y) {
      if |px| == |place[y].path| { SamePlace(g, roots, place, x, y); }
    }
  }

  /** The entry of `x` is taken away: `x` and all below it become a tree of their own. */
  lemma Detach(g: Graph, roots: set<nat>, place: map<nat, Place>, d: nat, n: Name, x: nat)
    requires Forest(g, roots, place)
    requires d in g && n in g[d] && g[d][n] == x
    ensures x in place
    ensures Forest(CutEdge(g, d, n), roots + {x}, DetachedPlace(place, x))
    ensures !InSubtree(place, x, d)
  {
    var h := CutEdge(g, d, n);
    assert EdgeOk(g, roots, place, d, n);
    var place' := DetachedPlace(place, x);
    assert place'[x].path == [];
    forall r <- roots + {x} ensures place'[r] == Place(r, []) {
      if r != x { assert !InSubtree(place, x, r); }
    }
    forall c: nat, m: Name ensures EdgeOk(h, roots + {x}, place', c, m) {
      if c in h && m in h[c] {
        assert EdgeOk(g, roots, place, c, m);
        if g[c][m] == x { OneParent(g, roots, place, c, m, d, n); }
        SubtreeStep(g, roots, place, x, c, m);
      }
    }
    forall y: nat ensures NodeOk(h, roots + {x}, place', y) {
      if y in place { WalkDetached(g, h, roots, place, d, n, x, y); }
    }
  }

  lemma {:induction false} WalkDetached(g: Graph, h: Graph, roots: set<nat>, place: map<nat, Place>, d: nat, n: Name,
      x: nat, y: nat)
    requires Forest(g, roots, place)
    requires d in g && n in g[d] && g[d][n] == x && h == CutEdge(g, d, n) && x in place && y in place
    ensures var q := DetachedAt(place, x, y); q.root in roots + {x} && Walk(h, q.root, q.path) == y
    decreases |place[y].path|
  {
    hide Walk, DetachedAt, NodeOk, EdgeOk, CutEdge;
    if y == x || y in roots {
      DetachedTops(g, roots, place, d, n, x, y);
    } else {
      var z, m := ParentOf(g, roots, place, y);
      WalkDetached(g, h, roots, place, d, n, x, z);
      var q := DetachedAt(place, x, z);
      DetachedStep(g, roots, place, d, n, x, z, m);
      WalkStep(h, q.root, q.path, m);
    }
  }

  /** The new root, and the roots there were, are where they should be. */
  lemma DetachedTops(g: Graph, roots: set<nat>, place: map<nat, Place>, d: nat, n: Name, x: nat, y: nat)
    requires Forest(g, roots, place)
    requires d in g && n in g[d] && g[d][n] == x && x in place && y in place && (y == x || y in roots)
    ensures var q := DetachedAt(place, x, y); q.root in roots + {x} && Walk(CutEdge(g, d, n), q.root, q.path) == y
  {
    assert EdgeOk(g, roots, place, d, n);
    if y == x {
      assert DetachedAt(place, x, y) == Place(x, []);
    } else {
      assert !InSubtree(place, x, y);
    }
  }

  /** An edge other than the one cut leads from place to place as before. */
  lemma DetachedStep(g: Graph, roots: set<nat>, place: map<nat, Place>, d: nat, n: Name, x: nat, z: nat, m: Name)
    requires Forest(g, roots, place)
    requires d in g && n in g[d] && g[d][n] == x && x in place && z in place
    requires z in g && m in g[z] && g[z][m] != x
    ensures g[z][m] in place && z in CutEdge(g, d, n) && m in CutEdge(g, d, n)[z] && CutEdge(g, d, n)[z][m] == g[z][m]
    ensures var q := DetachedAt(place, x, z); DetachedAt(place, x, g[z][m]) == Place(q.root, q.path + [m])
  {
    hide Walk;
    SubtreeStep(g, roots, place, x, z, m);
    assert EdgeOk(g, roots, place, z, m);
  }
}
