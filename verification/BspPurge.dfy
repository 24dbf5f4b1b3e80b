// Taking back a copy that was never published (psf.cpp:2856-2887).
module BspPurge {
  import opened BspTypes
  import opened BspPaths
  import opened BspForest
  import opened BspState
  import opened BspStore
  import opened BspDirectory
  import opened BspTree

  ghost predicate SameSizes(m: Mem, m': Mem) {
    |m'.nodes| == |m.nodes| && |m'.used| == |m.used| == |m.blocks| == |m'.blocks|
  }

  /** Block `b` belongs to a node of the subtree at `x`. */
  ghost predicate OwnedBelow(s: Shape, x: nat, b: nat) {
    b in s.own && InSubtree(s.place, x, s.own[b].node)
  }

  /** On the subtree at `x`, `m` is still as in m0. */
  ghost predicate Intact(m0: Mem, m: Mem, s: Shape, x: nat) {
    && SameSizes(m0, m)
    && (forall y | 0 <= y < |m.nodes| && InSubtree(s.place, x, y) :: m.nodes[y] == m0.nodes[y])
    && (forall b | 0 <= b < |m.used| && OwnedBelow(s, x, b) :: m.used[b] && m.blocks[b] == m0.blocks[b])
  }

  /** The subtree at `x` is freed, with its blocks; the rest is untouched. */
  ghost predicate Purged(m: Mem, m': Mem, s: Shape, x: nat) {
    && SameSizes(m, m')
    && (forall y | 0 <= y < |m.nodes| ::
          m'.nodes[y] == if InSubtree(s.place, x, y) then FREE_NODE else m.nodes[y])
    && (forall b | 0 <= b < |m.used| ::
          if OwnedBelow(s, x, b) then !m'.used[b] && m'.blocks[b] == Blank
          else m'.used[b] == m.used[b] && m'.blocks[b] == m.blocks[b])
  }

  /** Slot (k, j) comes before slot (l, h) in the order of the loops. */
  ghost predicate Before(k: nat, j: nat, l: nat, h: nat) {
    k < l || (k == l && j < h)
  }

  /** `y` is at or below a child of `x` whose slot comes before (k, j). */
  ghost predicate Gone(s: Shape, x: nat, k: nat, j: nat, y: nat) {
    x in s.dirs && exists n <- s.dirs[x] ::
        Before(s.dirs[x][n].k, s.dirs[x][n].j, k, j) && InSubtree(s.place, s.dirs[x][n].id, y)
  }

  ghost predicate GoneBlock(s: Shape, x: nat, k: nat, j: nat, b: nat) {
    b in s.own && (Gone(s, x, k, j, s.own[b].node) || (s.own[b].node == x && s.own[b].k < k))
  }

  ghost function Stripped(w: Node, k: nat): Node {
    w.(ptrs := seq(|w.ptrs|, l requires 0 <= l < |w.ptrs| => if l < k then NO_BLOCK else w.ptrs[l]))
  }

  /** The loops over the slots of `x` have come to (k, j). */
  ghost predicate PartPurged(m: Mem, m': Mem, s: Shape, x: nat, k: nat, j: nat) {
    && SameSizes(m, m')
    && (forall y | 0 <= y < |m.nodes| ::
          m'.nodes[y] == if y == x then Stripped(m.nodes[x], k) else if Gone(s, x, k, j, y) then FREE_NODE
              else m.nodes[y])
    && (forall b | 0 <= b < |m.used| ::
          if GoneBlock(s, x, k, j, b) then !m'.used[b] && m'.blocks[b] == Blank
          else m'.used[b] == m.used[b] && m'.blocks[b] == m.blocks[b])
  }

  lemma NothingPurged(m: Mem, s: Shape, x: nat)
    requires Sized(m)
    ensures PartPurged(m, m, s, x, 0, 0)
  {
    if x < |m.nodes| { assert Stripped(m.nodes[x], 0).ptrs == m.nodes[x].ptrs; }
  }

  /** Children of one directory have disjoint subtrees, all strictly below it. */
  lemma ChildrenApart(m: Mem, s: Shape, busy: nat, x: nat, n: Name, n': Name, y: nat)
    requires Sound(m, s, busy) && x in s.dirs && n in s.dirs[x] && n' in s.dirs[x]
    requires InSubtree(s.place, s.dirs[x][n].id, y)
    ensures y != x && InSubtree(s.place, x, y)
    ensures InSubtree(s.place, s.dirs[x][n'].id, y) ==> n == n'
  {
    EdgePlace(GraphOf(s.dirs), s.roots, s.place, x, n);
    EdgePlace(GraphOf(s.dirs), s.roots, s.place, x, n');
    hide Struct, Forest;
    var p := s.place[x].path;
    assert (p + [n])[|p|] == n && (p + [n'])[|p|] == n';
    assert p <= p + [n];
  }

  /** Whatever is strictly below a node is at or below one of its children. */
  lemma BelowSomeChild(m: Mem, s: Shape, busy: nat, x: nat, y: nat)
    requires Sound(m, s, busy) && InSubtree(s.place, x, y) && y != x
    ensures x in s.dirs && exists n <- s.dirs[x] :: InSubtree(s.place, s.dirs[x][n].id, y)
  {
    hide Struct, Forest, Walk;
    Basics(m, s, busy);
    var n := NextName(GraphOf(s.dirs), s.roots, s.place, x, y);
    EdgePlace(GraphOf(s.dirs), s.roots, s.place, x, n);
    assert n in s.dirs[x];
  }

  /** The first name on the way from `x` down to `y`. */
  lemma NextName(g: Graph, roots: set<nat>, place: map<nat, Place>, x: nat, y: nat) returns (n: Name)
    requires Forest(g, roots, place) && InSubtree(place, x, y) && y != x && 0 !in g
    ensures x in g && n in g[x] && place[x].path + [n] <= place[y].path
  {
    var p, q := place[x].path, place[y].path;
    if |p| == |q| { SamePlace(g, roots, place, x, y); }
    assert NodeOk(g, roots, place, y);
    assert NodeOk(g, roots, place, x);
    n := q[|p|];
    hide Walk, Forest;
    var rest: Path := q[|p|+1..];
    assert q == (p + [n]) + rest;
    WalkConcat(g, place[x].root, p + [n], rest);
    WalkStep(g, place[x].root, p, n);
    WalkFromZero(g, rest);
  }

  /** A child's own subtree is untouched while its elder siblings go. */
  lemma ChildIntact(m0: Mem, m1: Mem, m: Mem, s: Shape, busy: nat, x: nat, k: nat, j: nat, n: Name)
    requires Sound(m0, s, busy) && x in s.dirs && n in s.dirs[x] && x in s.place
    requires Intact(m0, m1, s, x) && PartPurged(m1, m, s, x, k, j)
    requires !Before(s.dirs[x][n].k, s.dirs[x][n].j, k, j)
    ensures Intact(m0, m, s, s.dirs[x][n].id)
  {
    hide Sound, Gone, InSubtree;
    var c := s.dirs[x][n].id;
    forall y | InSubtree(s.place, c, y) ensures y != x && InSubtree(s.place, x, y) && !Gone(s, x, k, j, y) {
      ChildrenApart(m0, s, busy, x, n, n, y);
      if Gone(s, x, k, j, y) { GoneApart(m0, s, busy, x, k, j, n, y); }
    }
  }

  lemma GoneApart(m0: Mem, s: Shape, busy: nat, x: nat, k: nat, j: nat, n: Name, y: nat)
    requires Sound(m0, s, busy) && x in s.dirs && n in s.dirs[x] && InSubtree(s.place, s.dirs[x][n].id, y)
    requires !Before(s.dirs[x][n].k, s.dirs[x][n].j, k, j)
    ensures !Gone(s, x, k, j, y)
  {
    hide Sound, InSubtree;
    if Gone(s, x, k, j, y) {
      var n' :| n' in s.dirs[x] && Before(s.dirs[x][n'].k, s.dirs[x][n'].j, k, j)
          && InSubtree(s.place, s.dirs[x][n'].id, y);
      ChildrenApart(m0, s, busy, x, n, n', y);
    }
  }

  /** The directory's own entry blocks are untouched until they are given back. */
  lemma EntryIntact(m0: Mem, m1: Mem, m: Mem, s: Shape, busy: nat, x: nat, k: nat, j: nat, l: nat)
    requires Sound(m0, s, busy) && x in s.place && x < |m.nodes|
    requires Intact(m0, m1, s, x) && PartPurged(m1, m, s, x, k, j) && k <= l
    ensures PtrAt(m, x, l) == PtrAt(m0, x, l)
    ensures PtrAt(m, x, l) != NO_BLOCK ==>
              && PtrAt(m, x, l) < |m.blocks| && m.used[PtrAt(m, x, l)]
              && m.blocks[PtrAt(m, x, l)] == m0.blocks[PtrAt(m, x, l)]
              && s.own[PtrAt(m, x, l)] == Owner(x, l)
  {
    assert InSubtree(s.place, x, x);
    var b := PtrAt(m0, x, l);
    assert b == PtrAt(m, x, l);
    if b != NO_BLOCK {
      assert b in s.own && s.own[b] == Owner(x, l);
      assert OwnedBelow(s, x, b);
      if Gone(s, x, k, j, x) {
        var n :| n in s.dirs[x] && InSubtree(s.place, s.dirs[x][n].id, x);
        ChildrenApart(m0, s, busy, x, n, n, x);
      }
    }
  }

  lemma SlotPassed(s: Shape, x: nat, k: nat, j: nat, y: nat)
    requires x in s.dirs ==> forall n <- s.dirs[x] :: !(s.dirs[x][n].k == k && s.dirs[x][n].j == j)
    ensures Gone(s, x, k, j + 1, y) <==> Gone(s, x, k, j, y)
  {
    if Gone(s, x, k, j + 1, y) {
      var n :| n in s.dirs[x] && Before(s.dirs[x][n].k, s.dirs[x][n].j, k, j + 1)
          && InSubtree(s.place, s.dirs[x][n].id, y);
      assert Before(s.dirs[x][n].k, s.dirs[x][n].j, k, j);
    }
    if Gone(s, x, k, j, y) {
      var n :| n in s.dirs[x] && Before(s.dirs[x][n].k, s.dirs[x][n].j, k, j) && InSubtree(s.place, s.dirs[x][n].id, y);
      assert Before(s.dirs[x][n].k, s.dirs[x][n].j, k, j + 1);
    }
  }

  /** An empty slot is passed over. */
  lemma EmptySlot(m1: Mem, m: Mem, s: Shape, x: nat, k: nat, j: nat)
    requires PartPurged(m1, m, s, x, k, j)
    requires x in s.dirs ==> forall n <- s.dirs[x] :: !(s.dirs[x][n].k == k && s.dirs[x][n].j == j)
    ensures PartPurged(m1, m, s, x, k, j + 1)
  {
    forall y: nat ensures Gone(s, x, k, j + 1, y) <==> Gone(s, x, k, j, y) { SlotPassed(s, x, k, j, y); }
  }

  lemma OneNamePerSlot(m: Mem, s: Shape, busy: nat, x: nat, n: Name, n': Name)
    requires Sound(m, s, busy) && busy !in s.dirs && x in s.dirs && n in s.dirs[x] && n' in s.dirs[x]
    requires s.dirs[x][n].k == s.dirs[x][n'].k && s.dirs[x][n].j == s.dirs[x][n'].j
    ensures n == n'
  {
    assert EntryAt(m, x, s.dirs[x][n].k, s.dirs[x][n].j).name == n;
    assert EntryAt(m, x, s.dirs[x][n'].k, s.dirs[x][n'].j).name == n';
  }

  lemma GoneWith(m0: Mem, s: Shape, busy: nat, x: nat, k: nat, j: nat, n: Name, y: nat)
    requires Sound(m0, s, busy) && x in s.dirs && n in s.dirs[x] && s.dirs[x][n].k == k && s.dirs[x][n].j == j
             && busy !in s.dirs
    ensures Gone(s, x, k, j + 1, y) <==> Gone(s, x, k, j, y) || InSubtree(s.place, s.dirs[x][n].id, y)
  {
    hide Sound, InSubtree;
    if Gone(s, x, k, j + 1, y) {
      var n' :| n' in s.dirs[x] && Before(s.dirs[x][n'].k, s.dirs[x][n'].j, k, j + 1)
          && InSubtree(s.place, s.dirs[x][n'].id, y);
      if !Before(s.dirs[x][n'].k, s.dirs[x][n'].j, k, j) { OneNamePerSlot(m0, s, busy, x, n, n'); }
    }
    if Gone(s, x, k, j, y) {
      var n' :| n' in s.dirs[x] && Before(s.dirs[x][n'].k, s.dirs[x][n'].j, k, j)
          && InSubtree(s.place, s.dirs[x][n'].id, y);
      assert Before(s.dirs[x][n'].k, s.dirs[x][n'].j, k, j + 1);
    }
    if InSubtree(s.place, s.dirs[x][n].id, y) { assert Before(s.dirs[x][n].k, s.dirs[x][n].j, k, j + 1); }
  }

  /** One more child is gone. */
  lemma ChildPurged(m0: Mem, m1: Mem, m: Mem, m': Mem, s: Shape, busy: nat, x: nat, k: nat, j: nat, n: Name)
    requires Sound(m0, s, busy) && x in s.dirs && n in s.dirs[x] && s.dirs[x][n].k == k && s.dirs[x][n].j == j
             && busy !in s.dirs
    requires PartPurged(m1, m, s, x, k, j) && Purged(m, m', s, s.dirs[x][n].id)
    ensures PartPurged(m1, m', s, x, k, j + 1)
  {
    hide Sound, Gone, InSubtree;
    var c := s.dirs[x][n].id;
    forall y: nat ensures Gone(s, x, k, j + 1, y) <==> Gone(s, x, k, j, y) || InSubtree(s.place, c, y) {
      GoneWith(m0, s, busy, x, k, j, n, y);
    }
    forall y | InSubtree(s.place, c, y) ensures y != x { ChildrenApart(m0, s, busy, x, n, n, y); }
    OwnersOwned(m0, s, busy);
  }

  lemma OwnersOwned(m: Mem, s: Shape, busy: nat)
    requires Sound(m, s, busy)
    ensures forall b <- s.own :: b < |m.used| && s.own[b].k < PTRS_PER_NODE
  {
    forall b <- s.own ensures b < |m.used| && s.own[b].k < PTRS_PER_NODE { OwnersInRange(m, s, busy, b); }
  }

  lemma RowEnds(m0: Mem, s: Shape, busy: nat, x: nat, k: nat, y: nat)
    requires Sound(m0, s, busy) && busy !in s.dirs
    ensures Gone(s, x, k, ENTRIES_PER_BLOCK, y) <==> Gone(s, x, k + 1, 0, y)
  {
    hide Sound, InSubtree;
    if Gone(s, x, k + 1, 0, y) {
      var n :| n in s.dirs[x] && Before(s.dirs[x][n].k, s.dirs[x][n].j, k + 1, 0)
          && InSubtree(s.place, s.dirs[x][n].id, y);
      SlotRange(m0, s, busy, x, n);
      assert Before(s.dirs[x][n].k, s.dirs[x][n].j, k, ENTRIES_PER_BLOCK);
    }
    if Gone(s, x, k, ENTRIES_PER_BLOCK, y) {
      var n :| n in s.dirs[x] && Before(s.dirs[x][n].k, s.dirs[x][n].j, k, ENTRIES_PER_BLOCK)
          && InSubtree(s.place, s.dirs[x][n].id, y);
      assert Before(s.dirs[x][n].k, s.dirs[x][n].j, k + 1, 0);
    }
  }

  /** A whole row of slots is done, and its block given back if there is one. */
  lemma RowPurged(m0: Mem, m1: Mem, m: Mem, m': Mem, s: Shape, busy: nat, x: nat, k: nat)
    requires Sound(m0, s, busy) && busy !in s.dirs && Sized(m1) && x < |m1.nodes| && k < PTRS_PER_NODE
    requires PartPurged(m1, m, s, x, k, ENTRIES_PER_BLOCK)
    requires PtrAt(m, x, k) == PtrAt(m0, x, k)
    requires if PtrAt(m, x, k) == NO_BLOCK then m' == m
             else
               && PtrAt(m, x, k) < |m.blocks| && PtrAt(m, x, k) < |m.used| && |m.nodes[x].ptrs| > k
               && m' == Shrunk(m, x, k)
    ensures PartPurged(m1, m', s, x, k + 1, 0)
  {
    hide Sound, Gone;
    var p := PtrAt(m, x, k);
    OwnerIs(m0, s, busy, x, k);
    forall y: nat ensures Gone(s, x, k, ENTRIES_PER_BLOCK, y) <==> Gone(s, x, k + 1, 0, y) {
      RowEnds(m0, s, busy, x, k, y);
    }
    forall b: nat ensures GoneBlock(s, x, k + 1, 0, b)
        <==> GoneBlock(s, x, k, ENTRIES_PER_BLOCK, b) || (b == p && p != NO_BLOCK) {
      if b in s.own && s.own[b].node == x && s.own[b].k == k { OwnedIs(m0, s, busy, b); }
    }
    hide GoneBlock, PtrAt;
    assert m'.nodes[x].ptrs == Stripped(m1.nodes[x], k + 1).ptrs;
  }

  lemma OwnerIs(m: Mem, s: Shape, busy: nat, x: nat, k: nat)
    requires Sound(m, s, busy)
    ensures PtrAt(m, x, k) != NO_BLOCK ==> PtrAt(m, x, k) in s.own && s.own[PtrAt(m, x, k)] == Owner(x, k)
  {
  }

  lemma OwnedIs(m: Mem, s: Shape, busy: nat, b: nat)
    requires Sound(m, s, busy) && b in s.own
    ensures PtrAt(m, s.own[b].node, s.own[b].k) == b != NO_BLOCK
  {
  }

  /** All rows done and the node cleared: the subtree is gone. */
  lemma AllPurged(m0: Mem, m1: Mem, m: Mem, s: Shape, busy: nat, x: nat)
    requires Sound(m0, s, busy) && busy !in s.dirs && x in s.place && x < |m1.nodes| && SameSizes(m0, m1)
    requires PartPurged(m1, m, s, x, PTRS_PER_NODE, 0)
    ensures Purged(m1, WithNode(m, x, FREE_NODE), s, x)
  {
    forall y: nat ensures InSubtree(s.place, x, y) <==> y == x || Gone(s, x, PTRS_PER_NODE, 0, y) {
      hide *;
      GoneIsBelow(m0, s, busy, x, y);
    }
    forall b | b in s.own ensures b < |m1.used| && (OwnedBelow(s, x, b) <==> GoneBlock(s, x, PTRS_PER_NODE, 0, b)) {
      OwnersInRange(m0, s, busy, b);
    }
    hide Sound, Gone, InSubtree;
  }

  lemma OwnersInRange(m: Mem, s: Shape, busy: nat, b: nat)
    requires Sound(m, s, busy) && b in s.own
    ensures b < |m.used| && s.own[b].k < PTRS_PER_NODE
  {
    assert PtrAt(m, s.own[b].node, s.own[b].k) == b;
  }

  lemma GoneIsBelow(m0: Mem, s: Shape, busy: nat, x: nat, y: nat)
    requires Sound(m0, s, busy) && busy !in s.dirs && x in s.place
    ensures InSubtree(s.place, x, y) <==> y == x || Gone(s, x, PTRS_PER_NODE, 0, y)
  {
    if Gone(s, x, PTRS_PER_NODE, 0, y) {
      var n :| n in s.dirs[x] && InSubtree(s.place, s.dirs[x][n].id, y);
      ChildrenApart(m0, s, busy, x, n, n, y);
    }
    if InSubtree(s.place, x, y) && y != x {
      BelowSomeChild(m0, s, busy, x, y);
      var n :| n in s.dirs[x] && InSubtree(s.place, s.dirs[x][n].id, y);
      SlotRange(m0, s, busy, x, n);
      assert Before(s.dirs[x][n].k, s.dirs[x][n].j, PTRS_PER_NODE, 0);
    }
  }

  lemma SlotRange(m: Mem, s: Shape, busy: nat, x: nat, n: Name)
    requires Sound(m, s, busy) && busy !in s.dirs && x in s.dirs && n in s.dirs[x]
    ensures s.dirs[x][n].k < PTRS_PER_NODE && s.dirs[x][n].j < ENTRIES_PER_BLOCK
  {
    assert EntryAt(m, x, s.dirs[x][n].k, s.dirs[x][n].j).id != 0;
  }

  // ----- the recursion

  /** `zwolnij_nieopublikowana_kopie` (psf.cpp:2856-2887): frees the subtree at `x`, which nothing else refers to.
      m0 is a sound memory in which the subtree was whole; at its own nodes and blocks it still is. */
  method FreeCopy(s: Store, x: nat, depth: nat, ghost m0: Mem, ghost sh: Shape, ghost busy: nat) returns (ok: bool)
    requires s.Ok() && Sound(m0, sh, busy) && busy !in sh.dirs && x in sh.place && Intact(m0, s.mem, sh, x)
    requires depth <= COPY_DEPTH && DepthOk(sh, x, depth)
    modifies s.ram, s`mem, s`pend, s`dirty, s`dirtyAll, s`hint
    ensures s.Ok() && ok && Purged(old(s.mem), s.mem, sh, x)
    ensures s.pend <= old(s.pend) - {NodeBlock(s.geo, x)}
    decreases COPY_DEPTH - depth, 1
  {
    hide Store.Ok, Sound, Intact, Purged, PartPurged, DepthOk, PtrAt;
    ghost var m1 := s.mem;
    PurgeStart(m0, m1, sh, busy, x);
    if x == 0 || depth > COPY_DEPTH || !s.NodeId(x) || s.NodeAt(x).kind == Free { return false; }
    var isDir := s.NodeAt(x).kind == Dir;
    NothingPurged(m1, sh, x);
    var k := 0;
    while k < PTRS_PER_NODE
      invariant 0 <= k <= PTRS_PER_NODE
      invariant s.Ok() && s.pend <= old(s.pend) + {NodeBlock(s.geo, x)} && s.NodeId(x) && SameSizes(m1, s.mem)
      invariant PartPurged(m1, s.mem, sh, x, k, 0)
    {
      FreeRow(s, x, k, depth, isDir, m0, m1, sh, busy);
      k := k + 1;
    }
    AllPurged(m0, m1, s.mem, sh, busy, x);
    PurgeLive(m0, m1, s.mem, sh, busy, x);
    var freed := s.FreeNode(x);
    ok := true;
  }

  /** Nodes below `x` are no more than the depth limit allows. */
  ghost predicate DepthOk(sh: Shape, x: nat, depth: nat) {
    forall y <- sh.place :: InSubtree(sh.place, x, y) ==> |sh.place[y].path| - |sh.place[x].path| + depth <= COPY_DEPTH
  }

  lemma PurgeStart(m0: Mem, m: Mem, sh: Shape, busy: nat, x: nat)
    requires Sound(m0, sh, busy) && x in sh.place && Intact(m0, m, sh, x)
    ensures 0 < x < |m.nodes| && m.nodes[x].kind != Free && SameSizes(m0, m)
            && (x in sh.dirs <==> m.nodes[x].kind == Dir)
  {
    Basics(m0, sh, busy);
    assert InSubtree(sh.place, x, x);
    assert x in sh.dirs <==> IsDir(m0, x);
  }

  lemma PurgeLive(m0: Mem, m1: Mem, m: Mem, sh: Shape, busy: nat, x: nat)
    requires Sound(m0, sh, busy) && x in sh.place && Intact(m0, m1, sh, x)
    requires PartPurged(m1, m, sh, x, PTRS_PER_NODE, 0)
    ensures x < |m.nodes| && m.nodes[x].kind != Free
  {
    PurgeStart(m0, m1, sh, busy, x);
    hide Sound;
  }

  /** One pointer of the loop: the children its block lists, then the block. */
  method FreeRow(s: Store, x: nat, k: nat, depth: nat, isDir: bool, ghost m0: Mem, ghost m1: Mem, ghost sh: Shape,
      ghost busy: nat)
    requires s.Ok() && Sound(m0, sh, busy) && busy !in sh.dirs && x in sh.place && Intact(m0, m1, sh, x)
    requires s.NodeId(x) && k < PTRS_PER_NODE && depth <= COPY_DEPTH && DepthOk(sh, x, depth)
    requires (isDir <==> x in sh.dirs) && Sized(m1) && SameSizes(m0, m1)
    requires SameSizes(m1, s.mem) && PartPurged(m1, s.mem, sh, x, k, 0)
    modifies s.ram, s`mem, s`pend, s`dirty, s`dirtyAll, s`hint
    ensures s.Ok() && s.NodeId(x) && s.pend <= old(s.pend) + {NodeBlock(s.geo, x)}
    ensures SameSizes(m1, s.mem) && PartPurged(m1, s.mem, sh, x, k + 1, 0)
    decreases COPY_DEPTH - depth, 0
  {
    hide Store.Ok, Sound, Intact, Purged, PartPurged, DepthOk, Gone, PtrAt, EntryAt;
    EntryIntact(m0, m1, s.mem, sh, busy, x, k, 0, k);
    PtrIsAt(s.mem, x, k);
    var b := s.NodeAt(x).ptrs[k];
    if b == NO_BLOCK {
      EmptyRow(m0, m1, s.mem, sh, busy, x, k);
      RowPurged(m0, m1, s.mem, s.mem, sh, busy, x, k);
      return;
    }
    if isDir {
      var entries := EntriesOf(s.DataAt(b));
      EntriesAre(m0, s.mem, x, k, b);
      var j := 0;
      while j < ENTRIES_PER_BLOCK
        invariant 0 <= j <= ENTRIES_PER_BLOCK
        invariant s.Ok() && s.NodeId(x) && s.pend <= old(s.pend) && SameSizes(m1, s.mem)
        invariant PartPurged(m1, s.mem, sh, x, k, j)
        invariant forall h: nat | h < ENTRIES_PER_BLOCK :: entries[h] == EntryAt(m0, x, k, h)
      {
        ghost var m := s.mem;
        if entries[j].id != 0 {
          ghost var n := SlotName(m0, sh, busy, x, k, j);
          ChildIntact(m0, m1, m, sh, busy, x, k, j, n);
          ChildDepth(m0, sh, busy, x, n, depth);
          var freed := FreeCopy(s, entries[j].id, depth + 1, m0, sh, busy);
          ChildPurged(m0, m1, m, s.mem, sh, busy, x, k, j, n);
          PurgedSizes(m, s.mem, sh, entries[j].id);
        } else {
          NoSuchSlot(m0, sh, busy, x, k, j);
          EmptySlot(m1, m, sh, x, k, j);
        }
        j := j + 1;
      }
    } else {
      NoSlots(m1, s.mem, sh, x, k);
    }
    ghost var m := s.mem;
    EntryIntact(m0, m1, m, sh, busy, x, k, ENTRIES_PER_BLOCK, k);
    PtrIsAt(m, x, k);
    var freed := s.FreeBlock(b);
    s.PutNode(x, WithPtr(s.NodeAt(x), k, NO_BLOCK));
    assert s.mem == Shrunk(m, x, k);
    RowPurged(m0, m1, m, s.mem, sh, busy, x, k);
  }

  lemma PtrIsAt(m: Mem, x: nat, k: nat)
    requires Sized(m) && x < |m.nodes| && k < PTRS_PER_NODE
    ensures |m.nodes[x].ptrs| == PTRS_PER_NODE && m.nodes[x].ptrs[k] == PtrAt(m, x, k)
  {
  }

  lemma EntriesAre(m0: Mem, m: Mem, x: nat, k: nat, b: nat)
    requires Sized(m) && SameSizes(m0, m) && b < |m.blocks| && PtrAt(m0, x, k) == b && m.blocks[b] == m0.blocks[b]
    ensures |EntriesOf(m.blocks[b])| == ENTRIES_PER_BLOCK
    ensures forall h: nat | h < ENTRIES_PER_BLOCK :: EntriesOf(m.blocks[b])[h] == EntryAt(m0, x, k, h)
  {
  }

  lemma PurgedSizes(m: Mem, m': Mem, sh: Shape, x: nat)
    requires Purged(m, m', sh, x)
    ensures SameSizes(m, m')
  {
  }

  lemma SlotName(m: Mem, s: Shape, busy: nat, x: nat, k: nat, j: nat) returns (n: Name)
    requires Sound(m, s, busy) && busy !in s.dirs && x in s.dirs && EntryAt(m, x, k, j).id != 0
    ensures n in s.dirs[x] && s.dirs[x][n] == Slot(k, j, EntryAt(m, x, k, j).id) && s.dirs[x][n].id in s.place
    ensures n == EntryAt(m, x, k, j).name
    ensures !Before(k, j, k, j)
  {
    n := EntryAt(m, x, k, j).name;
    EdgePlace(GraphOf(s.dirs), s.roots, s.place, x, n);
  }

  lemma NoSuchSlot(m: Mem, s: Shape, busy: nat, x: nat, k: nat, j: nat)
    requires Sound(m, s, busy) && busy !in s.dirs && EntryAt(m, x, k, j).id == 0
    ensures x in s.dirs ==> forall n <- s.dirs[x] :: !(s.dirs[x][n].k == k && s.dirs[x][n].j == j)
  {
    if x in s.dirs {
      forall n <- s.dirs[x] ensures !(s.dirs[x][n].k == k && s.dirs[x][n].j == j) {
        assert EntryAt(m, x, s.dirs[x][n].k, s.dirs[x][n].j).id != 0;
      }
    }
  }

  lemma ChildDepth(m: Mem, s: Shape, busy: nat, x: nat, n: Name, depth: nat)
    requires Sound(m, s, busy) && x in s.dirs && n in s.dirs[x] && DepthOk(s, x, depth) && x in s.place
    ensures s.dirs[x][n].id in s.place && depth + 1 <= COPY_DEPTH && DepthOk(s, s.dirs[x][n].id, depth + 1)
  {
    EdgePlace(GraphOf(s.dirs), s.roots, s.place, x, n);
    hide Sound;
    var c := s.dirs[x][n].id;
    assert InSubtree(s.place, c, c);
    forall y <- s.place | InSubtree(s.place, c, y) ensures InSubtree(s.place, x, y) {
      ChildrenApart(m, s, busy, x, n, n, y);
    }
  }

  /** No block, no children in that row. */
  lemma EmptyRow(m0: Mem, m1: Mem, m: Mem, s: Shape, busy: nat, x: nat, k: nat)
    requires Sound(m0, s, busy) && busy !in s.dirs && PtrAt(m0, x, k) == NO_BLOCK
    requires PartPurged(m1, m, s, x, k, 0)
    ensures PartPurged(m1, m, s, x, k, ENTRIES_PER_BLOCK)
  {
    hide PartPurged;
    if x in s.dirs {
      forall n <- s.dirs[x] ensures s.dirs[x][n].k != k { SlotHasBlock(m0, s, busy, x, n); }
    }
    NoSlots(m1, m, s, x, k);
  }

  lemma SlotHasBlock(m: Mem, s: Shape, busy: nat, x: nat, n: Name)
    requires Sound(m, s, busy) && busy !in s.dirs && x in s.dirs && n in s.dirs[x]
    ensures PtrAt(m, x, s.dirs[x][n].k) != NO_BLOCK
  {
    assert EntryAt(m, x, s.dirs[x][n].k, s.dirs[x][n].j).id != 0;
  }

  lemma NoSlots(m1: Mem, m: Mem, s: Shape, x: nat, k: nat)
    requires PartPurged(m1, m, s, x, k, 0) && (x in s.dirs ==> forall n <- s.dirs[x] :: s.dirs[x][n].k != k)
    ensures PartPurged(m1, m, s, x, k, ENTRIES_PER_BLOCK)
  {
    forall y: nat ensures Gone(s, x, k, ENTRIES_PER_BLOCK, y) == Gone(s, x, k, 0, y) {
      if x in s.dirs {
        assert forall n <- s.dirs[x] ::
          Before(s.dirs[x][n].k, s.dirs[x][n].j, k, ENTRIES_PER_BLOCK)
          <==> Before(s.dirs[x][n].k, s.dirs[x][n].j, k, 0);
      }
    }
  }
}
