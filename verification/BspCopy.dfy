// Recursive copy (psf.cpp:2889-2960, 4280-4318): an equal subtree is published, or nothing changes.
module BspCopy {
  import opened BspTypes
  import opened BspPaths
  import opened BspForest
  import opened BspState
  import opened BspStore
  import opened BspDirectory
  import opened BspTree
  import opened BspEffects
  import opened BspApi
  import opened BspFiles
  import opened BspPurge
  import opened BspExtend
  import opened BspClone
  import opened BspCost

  // ----- directories

  /** The names of `src` whose slots come before (k, j). */
  ghost function Done(sA: Shape, src: nat, k: nat, j: nat): set<Name> {
    if src in sA.dirs then set n | n in sA.dirs[src] && Before(sA.dirs[src][n].k, sA.dirs[src][n].j, k, j) else {}
  }

  /** The part of a tree at and below the given top names. */
  ghost function Part(v: Tree, names: set<Name>): Tree {
    imap p: Path | p in v && (p == [] || p[0] in names) :: v[p]
  }

  /** Directory `d` has its first `count` slots taken and no other, in as few blocks as that needs. */
  ghost predicate Compact(m: Mem, d: nat, count: nat) {
    && (forall k: nat {:trigger PtrAt(m, d, k)} | k < PTRS_PER_NODE ::
      PtrAt(m, d, k) != NO_BLOCK <==> k * ENTRIES_PER_BLOCK < count)
    && (forall k: nat, j: nat {:trigger EntryAt(m, d, k, j)} | k < PTRS_PER_NODE && j < ENTRIES_PER_BLOCK ::
          EntryAt(m, d, k, j).id != 0 <==> k * ENTRIES_PER_BLOCK + j < count)
  }

  /** What has been spent on the copy of `src` when its slots before (k, j) are done. */
  ghost predicate Billed(mA: Mem, src: nat, depth: nat, k: nat, j: nat, m: Mem, count: nat)
    requires depth < COPY_DEPTH && k <= PTRS_PER_NODE && j <= ENTRIES_PER_BLOCK
  {
    var all, rest := EntriesCost(mA, src, depth, 0, 0), EntriesCost(mA, src, depth, k, j);
    && all.fits == rest.fits && all.nodes >= rest.nodes && all.blocks >= rest.blocks
    && Spent(mA, m, 1 + all.nodes - rest.nodes, CeilDiv(count, ENTRIES_PER_BLOCK) + all.blocks - rest.blocks)
  }

  /** The tree of `x` stands finished beside an unchanged (mA, sA). */
  ghost predicate Beside(mA: Mem, sA: Shape, m: Mem, sh: Shape, x: nat, depth: nat) {
    && Sound(m, sh, 0) && Extends(mA, sA, m, sh)
    && x !in sA.place && x in sh.dirs && x in sh.place && sh.place[x] == Place(x, []) && sh.roots == sA.roots + {x}
    && Fresh(sA, sh, x, depth)
  }

  /** Directory `x` holds the part of the source below `names`. */
  ghost predicate Filled(mA: Mem, sA: Shape, src: nat, m: Mem, sh: Shape, x: nat, names: set<Name>) {
    && x in sh.dirs && sh.dirs[x].Keys == names
    && TreeAt(m, sh.dirs, x) == Part(TreeAt(mA, sA.dirs, src), names)
    && Compact(m, x, |names|)
  }

  /** `x` is a copy of directory `src` as far as the slots before (k, j). */
  ghost predicate Building(mA: Mem, sA: Shape, src: nat, x: nat, depth: nat, k: nat, j: nat, m: Mem, sh: Shape) {
    && depth < COPY_DEPTH && k <= PTRS_PER_NODE && j <= ENTRIES_PER_BLOCK
    && Beside(mA, sA, m, sh, x, depth)
    && Filled(mA, sA, src, m, sh, x, Done(sA, src, k, j))
    && Billed(mA, src, depth, k, j, m, |Done(sA, src, k, j)|)
  }

  lemma BuildingStarts(mA: Mem, sA: Shape, src: nat, x: nat, depth: nat)
    requires Sound(mA, sA, 0) && 0 < x < |mA.nodes| && mA.nodes[x].kind == Free && depth < COPY_DEPTH && src in sA.dirs
    ensures Building(mA, sA, src, x, depth, 0, 0, WithNode(mA, x, ClearNode(Dir)), NewRootShape(sA, x, Dir))
  {
    hide Sound, Extends, Fresh, TreeAt, Done, Part, Compact, FreeNodes, FreeBlocks, Beside, Filled, Billed;
    NothingDone(mA, sA, src);
    BesideStarts(mA, sA, x, depth);
    FilledStarts(mA, sA, src, x);
    BilledStarts(mA, sA, src, depth, x);
  }

  lemma BesideStarts(mA: Mem, sA: Shape, x: nat, depth: nat)
    requires Sound(mA, sA, 0) && 0 < x < |mA.nodes| && mA.nodes[x].kind == Free && depth < COPY_DEPTH
    ensures Beside(mA, sA, WithNode(mA, x, ClearNode(Dir)), NewRootShape(sA, x, Dir), x, depth)
  {
    hide Sound, Extends, Fresh;
    FreshStart(mA, sA, x, Dir, depth);
  }

  lemma FilledStarts(mA: Mem, sA: Shape, src: nat, x: nat)
    requires Sound(mA, sA, 0) && 0 < x < |mA.nodes| && mA.nodes[x].kind == Free && src in sA.dirs
    ensures Filled(mA, sA, src, WithNode(mA, x, ClearNode(Dir)), NewRootShape(sA, x, Dir), x, {})
  {
    hide Struct, Forest, Extends, Fresh, TreeAt, Part, Compact;
    assert |mA.blocks| < NO_BLOCK by { SizedNow(mA, sA); }
    FreshStart(mA, sA, x, Dir, 0);
    FreshDirTree(mA, sA, x);
    NothingDone(mA, sA, src);
    var none: set<Name> := {};
    assert |none| == 0;
    NothingEntered(WithNode(mA, x, ClearNode(Dir)), x);
  }

  lemma BilledStarts(mA: Mem, sA: Shape, src: nat, depth: nat, x: nat)
    requires Sound(mA, sA, 0) && 0 < x < |mA.nodes| && mA.nodes[x].kind == Free && depth < COPY_DEPTH
    ensures Billed(mA, src, depth, 0, 0, WithNode(mA, x, ClearNode(Dir)), |Done(sA, src, 0, 0)|)
  {
    hide Sound, EntriesCost;
    CountNewRoot(mA, x, Dir);
    assert Done(sA, src, 0, 0) == {};
  }

  lemma NothingDone(mA: Mem, sA: Shape, src: nat)
    requires Sound(mA, sA, 0) && src in sA.dirs
    ensures Done(sA, src, 0, 0) == {} && Part(TreeAt(mA, sA.dirs, src), {}) == Leaf(DirItem)
  {
    DirRootItem(mA, sA, src);
    hide Sound, TreeAt;
    TopPart(TreeAt(mA, sA.dirs, src));
  }

  lemma TopPart(v: Tree)
    requires [] in v && v[[]] == DirItem
    ensures Part(v, {}) == Leaf(DirItem)
  {
  }

  lemma NothingEntered(m: Mem, x: nat)
    requires forall k: nat :: PtrAt(m, x, k) == NO_BLOCK
    requires |m.blocks| < NO_BLOCK
    ensures Compact(m, x, 0)
  {
  }

  lemma FreshDirTree(mA: Mem, sA: Shape, x: nat)
    requires Sound(mA, sA, 0) && 0 < x < |mA.nodes| && mA.nodes[x].kind == Free
    ensures TreeAt(WithNode(mA, x, ClearNode(Dir)), NewRootShape(sA, x, Dir).dirs, x) == Leaf(DirItem)
  {
    var m, sh := WithNode(mA, x, ClearNode(Dir)), NewRootShape(sA, x, Dir);
    FreshStart(mA, sA, x, Dir, 0);
    hide Struct, Extends, Forest;
    forall p: Path | p != [] ensures Walk(GraphOf(sh.dirs), x, p) == 0 {
      hide Walk, Sound;
      NothingBelowFresh(m, sh, x, p);
    }
    hide Sound, Walk;
    FreshTree(m, sh.dirs, x, Dir);
  }

  lemma NothingBelowFresh(m: Mem, sh: Shape, x: nat, p: Path)
    requires Sound(m, sh, 0) && x in sh.roots && x in sh.dirs && sh.dirs[x] == map[] && p != []
    ensures Walk(GraphOf(sh.dirs), x, p) == 0
  {
    TreeOfRoot(m, sh, 0, x);
    assert GraphOf(sh.dirs)[x] == map[];
    hide Struct, Forest, Walk;
    NothingInEmpty(GraphOf(sh.dirs), sh.roots, sh.place, x, p);
    var none: Path := [];
    assert none + p == p;
  }

  lemma DirRootItem(m: Mem, s: Shape, src: nat)
    requires Sound(m, s, 0) && src in s.dirs
    ensures var none: Path := []; none in TreeAt(m, s.dirs, src) && TreeAt(m, s.dirs, src)[none] == DirItem
  {
    Basics(m, s, 0);
    assert IsDir(m, src);
  }

  // ----- one entry of the source

  lemma FirstWalk(g: Graph, r: nat, n: Name)
    ensures var b: Path := [n]; Walk(g, r, b) == if r in g && n in g[r] then g[r][n] else 0
  {
    var none: Path := [];
    assert none + [n] == [n];
    WalkStep(g, r, none, n);
  }

  /** The child's own tree is what the source's tree has below its name. */
  lemma ChildTree(m: Mem, s: Shape, src: nat, n: Name)
    requires Sound(m, s, 0) && src in s.dirs && n in s.dirs[src]
    ensures var b: Path := [n];
            TreeAt(m, s.dirs, s.dirs[src][n].id) == Sub(TreeAt(m, s.dirs, src), b) && b in TreeAt(m, s.dirs, src)
  {
    hide Sound, Walk, ItemOf, GraphOf;
    ChildWalk(m, s, src, n);
    var b: Path := [n];
    var c := s.dirs[src][n].id;
    forall p: Path ensures Walk(GraphOf(s.dirs), c, p) == Walk(GraphOf(s.dirs), src, b + p) {
      WalkConcat(GraphOf(s.dirs), src, b, p);
    }
    SubByWalks(m, m, s.dirs, s.dirs, src, c, b);
  }

  lemma ChildWalk(m: Mem, s: Shape, src: nat, n: Name)
    requires Sound(m, s, 0) && src in s.dirs && n in s.dirs[src]
    ensures var b: Path := [n];
            Walk(GraphOf(s.dirs), src, b) == s.dirs[src][n].id != 0
  {
    hide Struct, Forest;
    Basics(m, s, 0);
    EdgePlace(GraphOf(s.dirs), s.roots, s.place, src, n);
    FirstWalk(GraphOf(s.dirs), src, n);
  }

  lemma PartGains(v: Tree, names: set<Name>, n: Name)
    requires [n] in v && n !in names && PrefixClosed(v)
    ensures var b: Path := [n]; Graft(Part(v, names), b, Sub(v, b)) == Part(v, names + {n})
  {
    var b: Path := [n];
    var w, u := Graft(Part(v, names), b, Sub(v, b)), Part(v, names + {n});
    forall p: Path
      ensures p in w <==> p in u
      ensures p in u ==> w[p] == u[p]
    {
      if b <= p {
        assert p == b + p[1..];
      } else if p != [] {
        if p[0] == n { FirstName(p, n); }
      }
    }
  }

  lemma FirstName(p: Path, n: Name)
    requires p != [] && p[0] == n
    ensures [n] <= p
  {
    assert p[..1] == [n];
  }

  /** The last slot passed: every name of the source is there. */
  lemma AllParts(m: Mem, s: Shape, src: nat)
    requires Sound(m, s, 0) && src in s.dirs
    ensures Done(s, src, PTRS_PER_NODE, 0) == s.dirs[src].Keys
    ensures Part(TreeAt(m, s.dirs, src), s.dirs[src].Keys) == TreeAt(m, s.dirs, src)
  {
    Basics(m, s, 0);
    forall n <- s.dirs[src] ensures Before(s.dirs[src][n].k, s.dirs[src][n].j, PTRS_PER_NODE, 0) {
      SlotRange(m, s, 0, src, n);
    }
    forall p: Path | p in TreeAt(m, s.dirs, src) && p != [] ensures p[0] in s.dirs[src] {
      hide Sound, ItemOf;
      FirstListed(m, s, src, p);
    }
    hide Sound, TreeAt;
  }

  lemma FirstListed(m: Mem, s: Shape, src: nat, p: Path)
    requires Sound(m, s, 0) && src in s.dirs && p != [] && Walk(GraphOf(s.dirs), src, p) != 0
    ensures p[0] in s.dirs[src]
  {
    hide Sound, Walk;
    Basics(m, s, 0);
    FirstStep(GraphOf(s.dirs), src, p);
  }

  lemma FirstStep(g: Graph, r: nat, p: Path)
    requires 0 !in g && p != [] && Walk(g, r, p) != 0
    ensures r in g && p[0] in g[r]
  {
    var none: Path := [];
    assert Walk(g, r, none) == r;
    hide Walk;
    assert p == [p[0]] + p[1..];
    assert none + [p[0]] == [p[0]];
    WalkConcat(g, r, [p[0]], p[1..]);
    WalkStep(g, r, none, p[0]);
    WalkFromZero(g, p[1..]);
  }

  lemma DoneGains(m: Mem, s: Shape, src: nat, k: nat, j: nat, n: Name)
    requires Sound(m, s, 0) && src in s.dirs && n in s.dirs[src] && s.dirs[src][n].k == k && s.dirs[src][n].j == j
    ensures n !in Done(s, src, k, j) && Done(s, src, k, j + 1) == Done(s, src, k, j) + {n}
    ensures |Done(s, src, k, j + 1)| == |Done(s, src, k, j)| + 1 <= |s.dirs[src]|
  {
    hide Sound, Done, Before;
    Basics(m, s, 0);
    forall n' <- s.dirs[src] | s.dirs[src][n'].k == k && s.dirs[src][n'].j == j ensures n' == n {
      OneNamePerSlot(m, s, 0, src, n, n');
    }
    OneMoreDone(s, src, k, j, n);
  }

  lemma OneMoreDone(s: Shape, src: nat, k: nat, j: nat, n: Name)
    requires src in s.dirs && n in s.dirs[src] && s.dirs[src][n].k == k && s.dirs[src][n].j == j
    requires forall n' <- s.dirs[src] :: s.dirs[src][n'].k == k && s.dirs[src][n'].j == j ==> n' == n
    ensures n !in Done(s, src, k, j) && Done(s, src, k, j + 1) == Done(s, src, k, j) + {n}
    ensures |Done(s, src, k, j + 1)| == |Done(s, src, k, j)| + 1 <= |s.dirs[src]|
  {
    assert Done(s, src, k, j + 1) == Done(s, src, k, j) + {n};
    assert Done(s, src, k, j + 1) <= s.dirs[src].Keys;
    Subset(Done(s, src, k, j + 1), s.dirs[src].Keys);
    assert |s.dirs[src].Keys| == |s.dirs[src]|;
  }

  lemma DoneSame(s: Shape, src: nat, k: nat, j: nat)
    requires src in s.dirs && forall n <- s.dirs[src] :: !(s.dirs[src][n].k == k && s.dirs[src][n].j == j)
    ensures Done(s, src, k, j + 1) == Done(s, src, k, j)
  {
  }

  lemma DoneRow(m: Mem, s: Shape, src: nat, k: nat)
    requires Sound(m, s, 0) && src in s.dirs
    ensures Done(s, src, k, ENTRIES_PER_BLOCK) == Done(s, src, k + 1, 0)
  {
    Basics(m, s, 0);
    forall n <- s.dirs[src] ensures s.dirs[src][n].j < ENTRIES_PER_BLOCK { SlotRange(m, s, 0, src, n); }
  }

  lemma DoneGap(m: Mem, s: Shape, src: nat, k: nat)
    requires Sound(m, s, 0) && src in s.dirs && PtrAt(m, src, k) == NO_BLOCK
    ensures Done(s, src, k, 0) == Done(s, src, k + 1, 0)
  {
    Basics(m, s, 0);
    forall n <- s.dirs[src] ensures s.dirs[src][n].k != k { SlotHasBlock(m, s, 0, src, n); }
  }

  /** First-fit entry keeps a directory compact, and takes a block only when the last one is full. */
  lemma CompactGains(m: Mem, d: nat, t: Spot, e: Entry, count: nat)
    requires SpotFits(m, d, t) && FirstSpot(m, d, t) && Compact(m, d, count) && e.id != 0
    requires PtrsApart(m, d)
    ensures Compact(Added(m, d, t, e), d, count + 1)
    ensures CeilDiv(count + 1, ENTRIES_PER_BLOCK) == CeilDiv(count, ENTRIES_PER_BLOCK) + (if t.grew then 1 else 0)
  {
    SpotIsNext(m, d, t, count);
    AddedEntries(m, d, t, e);
    hide SpotFits, FirstSpot, Added, PtrsApart;
  }

  ghost predicate PtrsApart(m: Mem, d: nat) {
    && (forall k: nat, l: nat {:trigger PtrAt(m, d, k), PtrAt(m, d, l)} ::
      k != l && PtrAt(m, d, k) == PtrAt(m, d, l) ==> PtrAt(m, d, k) == NO_BLOCK)
    && (forall k: nat {:trigger PtrAt(m, d, k)} :: PtrAt(m, d, k) < |m.used| ==> m.used[PtrAt(m, d, k)])
  }

  lemma SpotIsNext(m: Mem, d: nat, t: Spot, count: nat)
    requires SpotFits(m, d, t) && FirstSpot(m, d, t) && Compact(m, d, count)
    ensures t.grew ==> count == t.k * ENTRIES_PER_BLOCK && t.j == 0
    ensures !t.grew ==> count == t.k * ENTRIES_PER_BLOCK + t.j && t.j > 0
  {
    var k, j := t.k, t.j;
    if k > 0 { assert EntryAt(m, d, k - 1, ENTRIES_PER_BLOCK - 1).id != 0; }
    if j > 0 { assert EntryAt(m, d, k, j - 1).id != 0; }
    assert PtrAt(m, d, k) != NO_BLOCK <==> k * ENTRIES_PER_BLOCK < count;
  }

  lemma AddedEntries(m: Mem, d: nat, t: Spot, e: Entry)
    requires SpotFits(m, d, t) && PtrsApart(m, d)
    ensures forall k: nat :: PtrAt(Added(m, d, t, e), d, k) == if k == t.k then t.block else PtrAt(m, d, k)
    ensures forall k: nat, j: nat ::
            EntryAt(Added(m, d, t, e), d, k, j) == if k == t.k && j == t.j then e else EntryAt(m, d, k, j)
  {
  }

  lemma OwnApart(m: Mem, s: Shape, x: nat)
    requires Sound(m, s, 0)
    ensures PtrsApart(m, x)
  {
  }

  lemma CompactCarried(m: Mem, s: Shape, m2: Mem, s2: Shape, x: nat, count: nat)
    requires Sound(m, s, 0) && Extends(m, s, m2, s2) && x in s.place && Compact(m, x, count)
    ensures Compact(m2, x, count)
  {
    NodeCarried(m, s, m2, s2, x);
    hide Sound, Extends;
  }

  /** A finished child `c`, beside the directory under construction. */
  ghost predicate ChildDone(m: Mem, sh: Shape, m2: Mem, sh2: Shape, c: nat, depth: nat) {
    && Sound(m2, sh2, 0) && Extends(m, sh, m2, sh2) && c !in sh.place && c in sh2.place && sh2.roots == sh.roots + {c}
    && Fresh(sh, sh2, c, depth + 1)
  }

  lemma BesideFacts(mA: Mem, sA: Shape, m: Mem, sh: Shape, x: nat, depth: nat, m2: Mem, sh2: Shape, c: nat)
    requires Sound(mA, sA, 0) && Beside(mA, sA, m, sh, x, depth) && ChildDone(m, sh, m2, sh2, c, depth)
    ensures x in sh2.dirs && x in sh2.place && sh2.place[x] == Place(x, []) && x != c && x != 0 && c != 0
            && IsDir(m2, x)
    ensures sh2.dirs[x] == sh.dirs[x] && c in sh2.roots && x in sh2.roots && c !in sA.place && Extends(mA, sA, m2, sh2)
    ensures FreshTwo(sA, sh2, x, c, depth) && c < |m2.nodes|
  {
    Basics(m2, sh2, 0);
    ExtendsTwice(mA, sA, m, sh, m2, sh2);
    hide Struct, Forest;
  }

  lemma BesideNext(mA: Mem, sA: Shape, m: Mem, sh: Shape, x: nat, depth: nat, m2: Mem, sh2: Shape, c: nat, t: Spot,
      n: Name, m3: Mem, sh3: Shape)
    requires Sound(mA, sA, 0) && Beside(mA, sA, m, sh, x, depth) && ChildDone(m, sh, m2, sh2, c, depth)
             && depth < COPY_DEPTH
    requires ValidName(n) && n !in sh.dirs[x] && SpotFits(m2, x, t) && m3 == Added(m2, x, t, Entry(c, n))
    requires x in sh2.dirs && x in sh2.place && sh3 == AttachShape(sh2, x, t, c, n)
    ensures Beside(mA, sA, m3, sh3, x, depth)
  {
    BesideFacts(mA, sA, m, sh, x, depth, m2, sh2, c);
    AttachedFresh(mA, sA, m2, sh2, x, depth, c, t, n, sh3);
    hide Struct, Forest, Extends, Fresh, FreshTwo, OnlyNode, SpotFits, AttachShape, Added, AttachedPlace;
    AttachSound(m2, sh2, 0, x, t, c, n);
    AddedSizes(m2, x, t, Entry(c, n));
    ExtendsStep(mA, sA, m2, sh2, m3, sh3, x);
  }

  lemma AddedSizes(m: Mem, d: nat, t: Spot, e: Entry)
    requires SpotFits(m, d, t)
    ensures SameSizes(m, Added(m, d, t, e))
  {
  }

  lemma AttachedFresh(mA: Mem, sA: Shape, m2: Mem, sh2: Shape, x: nat, depth: nat, c: nat, t: Spot, n: Name, sh3: Shape)
    requires Sound(mA, sA, 0) && Sound(m2, sh2, 0) && Extends(mA, sA, m2, sh2) && FreshTwo(sA, sh2, x, c, depth)
             && depth < COPY_DEPTH
    requires x !in sA.place && c !in sA.place && x != c && x in sh2.dirs && x in sh2.place
             && sh2.place[x] == Place(x, [])
    requires SpotFits(m2, x, t) && sh2.roots == sA.roots + {x} + {c} && sh3 == AttachShape(sh2, x, t, c, n)
    ensures Fresh(sA, sh3, x, depth) && sh3.roots == sA.roots + {x} && x in sh3.dirs && x in sh3.place
            && sh3.place[x] == Place(x, [])
    ensures forall y <- sA.place :: y in sh3.place && sh3.place[y] == sh2.place[y]
    ensures forall b <- sA.own :: b in sh3.own && sh3.own[b] == sh2.own[b]
    ensures forall d <- sA.dirs :: d in sh3.dirs && sh3.dirs[d] == sh2.dirs[d]
  {
    hide Sound, SpotFits, Extends, AttachShape, Fresh, FreshTwo;
    Basics(mA, sA, 0);
    KeptParts(mA, sA, m2, sh2);
    forall y <- sA.place ensures y in sh2.place && sh2.place[y].root != c {
      RootOf(mA, sA, 0, y);
      PlaceKept(mA, sA, m2, sh2, y);
    }
    SpotFree(m2, sh2, x, t);
    AttachedKeeps(sA, sh2, x, c, t, n);
    AttachedDepth(sA, sh2, x, depth, c, t, n);
  }

  lemma PlaceKept(m0: Mem, s0: Shape, m: Mem, s: Shape, y: nat)
    requires Extends(m0, s0, m, s) && y in s0.place
    ensures y in s.place && s.place[y] == s0.place[y]
  {
  }

  lemma AttachedKeeps(sA: Shape, sh: Shape, x: nat, c: nat, t: Spot, n: Name)
    requires x in sh.dirs && x in sh.place && x !in sA.dirs && x != c && sh.place[x] == Place(x, [])
    requires forall y <- sA.place :: y in sh.place && sh.place[y].root != c
    requires (forall b <- sA.own :: b in sh.own) && (forall d <- sA.dirs :: d in sh.dirs)
             && (t.grew ==> t.block !in sh.own)
    requires sh.roots == sA.roots + {x} + {c} && sA.roots <= sA.place.Keys && c !in sA.place
    ensures var sh3 := AttachShape(sh, x, t, c, n);
            && (forall y <- sA.place :: y in sh3.place && sh3.place[y] == sh.place[y])
            && (forall b <- sA.own :: b in sh3.own && sh3.own[b] == sh.own[b])
            && (forall d <- sA.dirs :: d in sh3.dirs && sh3.dirs[d] == sh.dirs[d])
            && sh3.roots == sA.roots + {x} && x in sh3.dirs && x in sh3.place && sh3.place[x] == Place(x, [])
  {
  }

  lemma AttachedDepth(sA: Shape, sh: Shape, x: nat, depth: nat, c: nat, t: Spot, n: Name)
    requires FreshTwo(sA, sh, x, c, depth) && x in sh.dirs && x in sh.place && x != c && sh.place[x] == Place(x, [])
    ensures Fresh(sA, AttachShape(sh, x, t, c, n), x, depth)
  {
    var sh3 := AttachShape(sh, x, t, c, n);
    forall y <- sh3.place | y !in sA.place ensures sh3.place[y].root == x && |sh3.place[y].path| + depth < COPY_DEPTH {
      var q := sh.place[y].path;
      assert |[] + [n] + q| == 1 + |q|;
    }
  }

  lemma SpotFree(m: Mem, sh: Shape, x: nat, t: Spot)
    requires Sound(m, sh, 0) && SpotFits(m, x, t)
    ensures t.grew ==> t.block !in sh.own
  {
  }

  lemma FilledNext(mA: Mem, sA: Shape, src: nat, m: Mem, sh: Shape, x: nat, depth: nat, names: set<Name>,
                   m2: Mem, sh2: Shape, c: nat, t: Spot, n: Name, m3: Mem, sh3: Shape)
    requires Sound(mA, sA, 0) && Beside(mA, sA, m, sh, x, depth) && ChildDone(m, sh, m2, sh2, c, depth)
             && src in sA.dirs && src in sA.place
    requires Filled(mA, sA, src, m, sh, x, names) && n in sA.dirs[src] && n !in names && ValidName(n)
    requires TreeAt(m2, sh2.dirs, c) == TreeAt(mA, sA.dirs, sA.dirs[src][n].id)
    requires SpotFits(m2, x, t) && FirstSpot(m2, x, t) && m3 == Added(m2, x, t, Entry(c, n))
    requires x in sh2.dirs && x in sh2.place && sh3 == AttachShape(sh2, x, t, c, n)
    ensures Filled(mA, sA, src, m3, sh3, x, names + {n})
  {
    hide *;
    BesideFacts(mA, sA, m, sh, x, depth, m2, sh2, c);
    BesideParts(mA, sA, m, sh, x, depth);
    ChildParts(m, sh, m2, sh2, c, depth);
    FilledParts(mA, sA, src, m, sh, x, names);
    AttachedNames(sh2, x, t, c, n);
    FilledTree(mA, sA, src, m, sh, x, names, m2, sh2, c, t, n);
    FilledCompact(mA, sA, src, m, sh, x, names, m2, sh2, c, t, n);
    IsFilled(mA, sA, src, m3, sh3, x, names + {n});
  }

  lemma BesideParts(mA: Mem, sA: Shape, m: Mem, sh: Shape, x: nat, depth: nat)
    requires Beside(mA, sA, m, sh, x, depth)
    ensures Sound(m, sh, 0) && Extends(mA, sA, m, sh) && x in sh.place && x !in sA.place && x in sh.roots
            && x in sh.dirs
    ensures Fresh(sA, sh, x, depth)
  {
  }

  lemma ChildParts(m: Mem, sh: Shape, m2: Mem, sh2: Shape, c: nat, depth: nat)
    requires ChildDone(m, sh, m2, sh2, c, depth)
    ensures Sound(m2, sh2, 0) && Extends(m, sh, m2, sh2)
  {
  }

  lemma FilledParts(mA: Mem, sA: Shape, src: nat, m: Mem, sh: Shape, x: nat, names: set<Name>)
    requires Filled(mA, sA, src, m, sh, x, names)
    ensures x in sh.dirs && sh.dirs[x].Keys == names && Compact(m, x, |names|)
    ensures TreeAt(m, sh.dirs, x) == Part(TreeAt(mA, sA.dirs, src), names)
  {
  }

  lemma AttachedNames(sh: Shape, x: nat, t: Spot, c: nat, n: Name)
    requires x in sh.dirs && x in sh.place
    ensures x in AttachShape(sh, x, t, c, n).dirs && AttachShape(sh, x, t, c, n).dirs[x].Keys == sh.dirs[x].Keys + {n}
  {
  }

  lemma IsFilled(mA: Mem, sA: Shape, src: nat, m: Mem, sh: Shape, x: nat, names: set<Name>)
    requires x in sh.dirs && sh.dirs[x].Keys == names
    requires TreeAt(m, sh.dirs, x) == Part(TreeAt(mA, sA.dirs, src), names) && Compact(m, x, |names|)
    ensures Filled(mA, sA, src, m, sh, x, names)
  {
  }

  lemma FilledCompact(mA: Mem, sA: Shape, src: nat, m: Mem, sh: Shape, x: nat, names: set<Name>,
                      m2: Mem, sh2: Shape, c: nat, t: Spot, n: Name)
    requires Sound(m, sh, 0) && Extends(m, sh, m2, sh2) && Sound(m2, sh2, 0) && x in sh.place && c != 0
    requires Filled(mA, sA, src, m, sh, x, names) && n !in names
    requires SpotFits(m2, x, t) && FirstSpot(m2, x, t)
    ensures Compact(Added(m2, x, t, Entry(c, n)), x, |names + {n}|)
    ensures CeilDiv(|names + {n}|, ENTRIES_PER_BLOCK) == CeilDiv(|names|, ENTRIES_PER_BLOCK) + (if t.grew then 1 else 0)
  {
    hide *;
    assert |names + {n}| == |names| + 1;
    FilledParts(mA, sA, src, m, sh, x, names);
    CompactCarried(m, sh, m2, sh2, x, |names|);
    OwnApart(m2, sh2, x);
    CompactGains(m2, x, t, Entry(c, n), |names|);
  }

  lemma FilledTree(mA: Mem, sA: Shape, src: nat, m: Mem, sh: Shape, x: nat, names: set<Name>,
                   m2: Mem, sh2: Shape, c: nat, t: Spot, n: Name)
    requires Sound(mA, sA, 0) && src in sA.dirs && src in sA.place
    requires Sound(m, sh, 0) && Extends(m, sh, m2, sh2) && Sound(m2, sh2, 0) && x in sh.place
    requires Filled(mA, sA, src, m, sh, x, names) && n in sA.dirs[src] && n !in names && ValidName(n)
    requires TreeAt(m2, sh2.dirs, c) == TreeAt(mA, sA.dirs, sA.dirs[src][n].id)
    requires SpotFits(m2, x, t) && x in sh2.dirs && x in sh2.place && sh2.place[x] == Place(x, []) && n !in sh2.dirs[x]
    requires c in sh2.roots && x in sh2.roots && x != c && x != 0
    ensures TreeAt(Added(m2, x, t, Entry(c, n)), AttachShape(sh2, x, t, c, n).dirs, x)
            == Part(TreeAt(mA, sA.dirs, src), names + {n})
  {
    hide *;
    FilledParts(mA, sA, src, m, sh, x, names);
    ExtendsTree(m, sh, m2, sh2, 0, x);
    AttachContents(m2, sh2, 0, x, t, c, n, x);
    ChildTree(mA, sA, src, n);
    TreePrefixClosed(mA, sA, 0, src);
    PartGains(TreeAt(mA, sA.dirs, src), names, n);
    var none, b: Path := [], [n];
    assert none + [n] == b;
  }

  // ----- the bill

  lemma BilledNext(mA: Mem, src: nat, depth: nat, k: nat, j: nat, m: Mem, count: nat, m2: Mem, m3: Mem, blocks: nat)
    requires depth < COPY_DEPTH && k < PTRS_PER_NODE && j < ENTRIES_PER_BLOCK && Billed(mA, src, depth, k, j, m, count)
    requires EntryAt(mA, src, k, j).id != 0
    requires var c := CopyCost(mA, EntryAt(mA, src, k, j).id, depth + 1); Spent(m, m2, c.nodes, c.blocks) && c.fits
    requires Spent(m2, m3, 0, blocks)
             && CeilDiv(count + 1, ENTRIES_PER_BLOCK) == CeilDiv(count, ENTRIES_PER_BLOCK) + blocks
    ensures Billed(mA, src, depth, k, j + 1, m3, count + 1)
  {
    assert EntriesCost(mA, src, depth, k, j)
        == Plus(CopyCost(mA, EntryAt(mA, src, k, j).id, depth + 1), EntriesCost(mA, src, depth, k, j + 1));
    hide EntriesCost, CopyCost, FreeNodes, FreeBlocks, CeilDiv, EntryAt;
  }

  lemma DirCost(mA: Mem, sA: Shape, src: nat, depth: nat)
    requires Sound(mA, sA, 0) && src in sA.dirs && depth < COPY_DEPTH
    ensures CopyCost(mA, src, depth) ==
            Plus(Cost(1, CeilDiv(|sA.dirs[src]|, ENTRIES_PER_BLOCK), true), EntriesCost(mA, src, depth, 0, 0))
  {
    Basics(mA, sA, 0);
    assert IsDir(mA, src);
    assert DirOk(mA, src, sA.dirs[src]);
    hide Sound, EntriesCost;
  }

  lemma CeilGrows(a: nat, b: nat)
    requires a <= b
    ensures CeilDiv(a, ENTRIES_PER_BLOCK) <= CeilDiv(b, ENTRIES_PER_BLOCK)
  {
  }

  /** A child that cannot be paid for now could not be paid for at the start either. */
  lemma ChildTooDear(mA: Mem, sA: Shape, src: nat, depth: nat, k: nat, j: nat, m: Mem, count: nat)
    requires Sound(mA, sA, 0) && src in sA.dirs && depth < COPY_DEPTH && k < PTRS_PER_NODE && j < ENTRIES_PER_BLOCK
    requires EntryAt(mA, src, k, j).id != 0 && Billed(mA, src, depth, k, j, m, count) && count <= |sA.dirs[src]|
    ensures Affordable(mA, CopyCost(mA, src, depth))
            ==> Affordable(m, CopyCost(mA, EntryAt(mA, src, k, j).id, depth + 1))
  {
    DirCost(mA, sA, src, depth);
    CeilGrows(count, |sA.dirs[src]|);
    assert EntriesCost(mA, src, depth, k, j)
        == Plus(CopyCost(mA, EntryAt(mA, src, k, j).id, depth + 1), EntriesCost(mA, src, depth, k, j + 1));
    hide Sound, EntriesCost, CopyCost, FreeNodes, FreeBlocks, CeilDiv, EntryAt;
  }

  /** No room for the child's entry: the directory needs one more block and none is left. */
  lemma EntryTooDear(mA: Mem, sA: Shape, src: nat, depth: nat, k: nat, j: nat, m: Mem, count: nat, m2: Mem)
    requires Sound(mA, sA, 0) && src in sA.dirs && depth < COPY_DEPTH && k < PTRS_PER_NODE && j < ENTRIES_PER_BLOCK
    requires EntryAt(mA, src, k, j).id != 0 && Billed(mA, src, depth, k, j, m, count) && count < |sA.dirs[src]|
    requires var c := CopyCost(mA, EntryAt(mA, src, k, j).id, depth + 1); Spent(m, m2, c.nodes, c.blocks)
    requires AllUsed(m2) && count % ENTRIES_PER_BLOCK == 0
    ensures !Affordable(mA, CopyCost(mA, src, depth))
  {
    DirCost(mA, sA, src, depth);
    CeilGrows(count + 1, |sA.dirs[src]|);
    assert CeilDiv(count + 1, ENTRIES_PER_BLOCK) == CeilDiv(count, ENTRIES_PER_BLOCK) + 1;
    NoneLeft(m2);
    assert EntriesCost(mA, src, depth, k, j)
        == Plus(CopyCost(mA, EntryAt(mA, src, k, j).id, depth + 1), EntriesCost(mA, src, depth, k, j + 1));
    hide Sound, EntriesCost, CopyCost, FreeNodes, FreeBlocks, CeilDiv, EntryAt, AllUsed;
  }

  /** A compact directory with free slots left in its pointers is refused only for want of a block. */
  lemma NoRoomMeans(m: Mem, x: nat, count: nat)
    requires Compact(m, x, count) && !Room(m, x) && count < PTRS_PER_NODE * ENTRIES_PER_BLOCK
    ensures AllUsed(m) && count % ENTRIES_PER_BLOCK == 0
  {
    if count % ENTRIES_PER_BLOCK != 0 { SlotFree(m, x, count); }
    if !AllUsed(m) && count % ENTRIES_PER_BLOCK == 0 { PtrFree(m, x, count); }
  }

  lemma SlotFree(m: Mem, x: nat, count: nat)
    requires Compact(m, x, count) && count < PTRS_PER_NODE * ENTRIES_PER_BLOCK && count % ENTRIES_PER_BLOCK != 0
    ensures Room(m, x)
  {
    var k, j := count / ENTRIES_PER_BLOCK, count % ENTRIES_PER_BLOCK;
    assert EntryAt(m, x, k, j).id == 0 && PtrAt(m, x, k) != NO_BLOCK;
  }

  lemma PtrFree(m: Mem, x: nat, count: nat)
    requires Compact(m, x, count) && count < PTRS_PER_NODE * ENTRIES_PER_BLOCK && count % ENTRIES_PER_BLOCK == 0
             && !AllUsed(m)
    ensures Room(m, x)
  {
    assert PtrAt(m, x, count / ENTRIES_PER_BLOCK) == NO_BLOCK;
  }

  // ----- the recursion

  /** The nodes on the way down to the source are strictly above it. */
  ghost predicate Ancestry(line: seq<nat>, s: Shape, length: nat) {
    forall i | 0 <= i < |line| :: line[i] in s.place && |s.place[line[i]].path| < length
  }

  lemma AncestryCarried(line: seq<nat>, m0: Mem, s0: Shape, m: Mem, s: Shape, length: nat)
    requires Ancestry(line, s0, length) && Extends(m0, s0, m, s)
    ensures Ancestry(line, s, length)
  {
  }

  /** The source's slot (k, j) as it is read while the copy grows. */
  lemma SourceSlot(mA: Mem, sA: Shape, m: Mem, sh: Shape, src: nat, k: nat)
    requires Sound(mA, sA, 0) && Extends(mA, sA, m, sh) && Sound(m, sh, 0) && src in sA.dirs && src in sA.place
             && k < PTRS_PER_NODE
    ensures 0 < src < |m.nodes| && |m.nodes[src].ptrs| == PTRS_PER_NODE && m.nodes[src].ptrs[k] == PtrAt(mA, src, k)
    ensures PtrAt(mA, src, k) != NO_BLOCK ==>
              && PtrAt(mA, src, k) < |m.blocks| && |EntriesOf(m.blocks[PtrAt(mA, src, k)])| == ENTRIES_PER_BLOCK
              && forall j: nat | j < ENTRIES_PER_BLOCK ::
                  EntriesOf(m.blocks[PtrAt(mA, src, k)])[j] == EntryAt(mA, src, k, j)
  {
    hide Sound, Extends, EntryAt, PtrAt;
    Basics(mA, sA, 0);
    NodeCarried(mA, sA, m, sh, src);
    SizedNow(m, sh);
    SizesKept(mA, sA, m, sh);
    PtrsValidNow(mA, sA, src);
    PtrIs(m, src, k);
    if PtrAt(mA, src, k) != NO_BLOCK { EntriesAt(m, src, k); }
  }

  lemma PtrsValidNow(m: Mem, s: Shape, d: nat)
    requires Sound(m, s, 0)
    ensures forall k: nat :: PtrAt(m, d, k) != NO_BLOCK ==> PtrAt(m, d, k) < |m.blocks|
  {
    OwnedPtrsValid(m, s.own, d);
  }

  lemma EntriesAt(m: Mem, d: nat, k: nat)
    requires Sized(m) && PtrAt(m, d, k) < |m.blocks|
    ensures |EntriesOf(m.blocks[PtrAt(m, d, k)])| == ENTRIES_PER_BLOCK
    ensures forall j: nat | j < ENTRIES_PER_BLOCK :: EntriesOf(m.blocks[PtrAt(m, d, k)])[j] == EntryAt(m, d, k, j)
  {
  }

  lemma BuildingParts(mA: Mem, sA: Shape, src: nat, x: nat, depth: nat, k: nat, j: nat, m: Mem, sh: Shape)
    requires Building(mA, sA, src, x, depth, k, j, m, sh)
    ensures depth < COPY_DEPTH && k <= PTRS_PER_NODE && j <= ENTRIES_PER_BLOCK
    ensures Beside(mA, sA, m, sh, x, depth) && Filled(mA, sA, src, m, sh, x, Done(sA, src, k, j))
    ensures Billed(mA, src, depth, k, j, m, |Done(sA, src, k, j)|)
    ensures Sound(m, sh, 0) && Extends(mA, sA, m, sh) && x in sh.place && x !in sA.place && x in sh.roots
            && x in sh.dirs
    ensures Fresh(sA, sh, x, depth)
  {
    BesideParts(mA, sA, m, sh, x, depth);
  }

  lemma IsBuilding(mA: Mem, sA: Shape, src: nat, x: nat, depth: nat, k: nat, j: nat, m: Mem, sh: Shape)
    requires depth < COPY_DEPTH && k <= PTRS_PER_NODE && j <= ENTRIES_PER_BLOCK
    requires Beside(mA, sA, m, sh, x, depth) && Filled(mA, sA, src, m, sh, x, Done(sA, src, k, j))
    requires Billed(mA, src, depth, k, j, m, |Done(sA, src, k, j)|)
    ensures Building(mA, sA, src, x, depth, k, j, m, sh)
  {
  }

  lemma SkipSlot(mA: Mem, sA: Shape, src: nat, x: nat, depth: nat, k: nat, j: nat, m: Mem, sh: Shape)
    requires Sound(mA, sA, 0) && src in sA.dirs && k < PTRS_PER_NODE && j < ENTRIES_PER_BLOCK
    requires Building(mA, sA, src, x, depth, k, j, m, sh) && EntryAt(mA, src, k, j).id == 0
    ensures Building(mA, sA, src, x, depth, k, j + 1, m, sh)
  {
    hide Sound, Beside, Filled, Done, EntryAt, FreeNodes, FreeBlocks;
    ZeroNoDir(mA, sA);
    NoSuchSlot(mA, sA, 0, src, k, j);
    DoneSame(sA, src, k, j);
  }

  lemma ZeroNoDir(m: Mem, s: Shape)
    requires Sound(m, s, 0)
    ensures 0 !in s.dirs
  {
    Basics(m, s, 0);
  }

  lemma RowDone(mA: Mem, sA: Shape, src: nat, x: nat, depth: nat, k: nat, m: Mem, sh: Shape)
    requires Sound(mA, sA, 0) && src in sA.dirs && k < PTRS_PER_NODE
    requires Building(mA, sA, src, x, depth, k, ENTRIES_PER_BLOCK, m, sh)
    ensures Building(mA, sA, src, x, depth, k + 1, 0, m, sh)
  {
    hide Sound, Beside, Filled, Done, FreeNodes, FreeBlocks;
    DoneRow(mA, sA, src, k);
  }

  lemma RowMissing(mA: Mem, sA: Shape, src: nat, x: nat, depth: nat, k: nat, m: Mem, sh: Shape)
    requires Sound(mA, sA, 0) && src in sA.dirs && k < PTRS_PER_NODE && PtrAt(mA, src, k) == NO_BLOCK
    requires Building(mA, sA, src, x, depth, k, 0, m, sh)
    ensures Building(mA, sA, src, x, depth, k + 1, 0, m, sh)
  {
    hide Sound, Beside, Filled, Done, FreeNodes, FreeBlocks, EntryAt;
    DoneGap(mA, sA, src, k);
    NoEntries(mA, sA, src, k);
    RowWithoutEntries(mA, src, depth, k, 0);
  }

  lemma NoEntries(m: Mem, s: Shape, d: nat, k: nat)
    requires Sound(m, s, 0) && PtrAt(m, d, k) == NO_BLOCK
    ensures forall j: nat :: EntryAt(m, d, k, j).id == 0
  {
  }

  lemma EntryDone(mA: Mem, sA: Shape, src: nat, x: nat, depth: nat, k: nat, j: nat, m: Mem, sh: Shape,
                  n: Name, m2: Mem, sh2: Shape, c: nat, t: Spot)
    requires Sound(mA, sA, 0) && src in sA.dirs && src in sA.place && k < PTRS_PER_NODE && j < ENTRIES_PER_BLOCK
    requires Building(mA, sA, src, x, depth, k, j, m, sh)
    requires n in sA.dirs[src] && sA.dirs[src][n] == Slot(k, j, EntryAt(mA, src, k, j).id)
             && sA.dirs[src][n].id in sA.place
    requires EntryAt(mA, src, k, j).id != 0 && ValidName(n)
    requires Cloned(m, sh, sA.dirs[src][n].id, depth + 1, m2, sh2, c) && CopyCost(m, sA.dirs[src][n].id, depth + 1).fits
    requires SpotFits(m2, x, t) && FirstSpot(m2, x, t) && x in sh2.dirs && x in sh2.place
    ensures Building(mA, sA, src, x, depth, k, j + 1, Added(m2, x, t, Entry(c, n)), AttachShape(sh2, x, t, c, n))
  {
    hide *;
    var names := Done(sA, src, k, j);
    var m3, sh3 := Added(m2, x, t, Entry(c, n)), AttachShape(sh2, x, t, c, n);
    BuildingParts(mA, sA, src, x, depth, k, j, m, sh);
    ClonedParts(m, sh, sA.dirs[src][n].id, depth, m2, sh2, c);
    FilledParts(mA, sA, src, m, sh, x, names);
    BesideFacts(mA, sA, m, sh, x, depth, m2, sh2, c);
    DoneGains(mA, sA, src, k, j, n);
    BesideNext(mA, sA, m, sh, x, depth, m2, sh2, c, t, n, m3, sh3);
    ChildSame(mA, sA, m, sh, sA.dirs[src][n].id, depth);
    FilledNext(mA, sA, src, m, sh, x, depth, names, m2, sh2, c, t, n, m3, sh3);
    FilledCompact(mA, sA, src, m, sh, x, names, m2, sh2, c, t, n);
    CountAdded(m2, x, t, Entry(c, n));
    BilledNext(mA, src, depth, k, j, m, |names|, m2, m3, if t.grew then 1 else 0);
    IsBuilding(mA, sA, src, x, depth, k, j + 1, m3, sh3);
  }

  lemma ClonedParts(m: Mem, sh: Shape, y: nat, depth: nat, m2: Mem, sh2: Shape, c: nat)
    requires Cloned(m, sh, y, depth + 1, m2, sh2, c)
    ensures ChildDone(m, sh, m2, sh2, c, depth) && TreeAt(m2, sh2.dirs, c) == TreeAt(m, sh.dirs, y)
    ensures Sound(m2, sh2, 0) && Extends(m, sh, m2, sh2) && c in sh2.place
    ensures Spent(m, m2, CopyCost(m, y, depth + 1).nodes, CopyCost(m, y, depth + 1).blocks)
  {
  }

  /** A source child is the same to copy now as at the start. */
  lemma ChildSame(mA: Mem, sA: Shape, m: Mem, sh: Shape, y: nat, depth: nat)
    requires Sound(mA, sA, 0) && Sound(m, sh, 0) && Extends(mA, sA, m, sh) && y in sA.place
    ensures TreeAt(m, sh.dirs, y) == TreeAt(mA, sA.dirs, y) && y in sh.place && sh.place[y] == sA.place[y]
    ensures CopyCost(m, y, depth + 1) == CopyCost(mA, y, depth + 1)
  {
    hide *;
    ExtendsTree(mA, sA, m, sh, 0, y);
    PlaceKept(mA, sA, m, sh, y);
    CostCarried(mA, sA, m, sh, y, depth + 1);
  }

  /** One entry of the source directory (the body of the loops at psf.cpp:2944-2956). */
  method CloneEntry(s: Store, src: nat, x: nat, k: nat, j: nat, b: nat, depth: nat, line: array<nat>,
                    ghost mA: Mem, ghost sA: Shape, ghost sh0: Shape)
    returns (ok: bool, ghost sh: Shape)
    requires s.Ok() && s.pend == {} && Sound(mA, sA, 0) && src in sA.dirs && src in sA.place
    requires Building(mA, sA, src, x, depth, k, j, s.mem, sh0) && k < PTRS_PER_NODE && j < ENTRIES_PER_BLOCK
    requires b == PtrAt(mA, src, k) != NO_BLOCK && line.Length == COPY_DEPTH && depth < COPY_DEPTH
    requires Ancestry(line[..depth + 1], sA, |sA.place[src].path| + 1)
    modifies s.ram, s`mem, s`pend, s`dirty, s`dirtyAll, s`hint, line
    ensures s.Ok() && s.pend == {} && line[..depth + 1] == old(line[..depth + 1])
    ensures ok ==> Building(mA, sA, src, x, depth, k, j + 1, s.mem, sh)
    ensures !ok ==> s.mem == mA && !Affordable(mA, CopyCost(mA, src, depth))
    decreases COPY_DEPTH - depth, 1
  {
    hide *;
    sh := sh0;
    ghost var m := s.mem;
    BuildingParts(mA, sA, src, x, depth, k, j, m, sh0);
    SourceSlot(mA, sA, m, sh0, src, k);
    CountsBlocks(s);
    var e := EntriesOf(s.DataAt(b))[j];
    if e.id == 0 {
      SkipSlot(mA, sA, src, x, depth, k, j, m, sh0);
      return true, sh0;
    }
    ZeroNoDir(mA, sA);
    ghost var n := SlotName(mA, sA, 0, src, k, j);
    ChildSame(mA, sA, m, sh0, e.id, depth);
    ChildPlace(mA, sA, src, n);
    AncestryCarried(line[..depth + 1], mA, sA, m, sh0, |sA.place[src].path| + 1);
    DoneGains(mA, sA, src, k, j, n);
    ZeroNoDir(m, sh0);
    ghost var sh2: Shape;
    var child: nat;
    child, sh2 := Clone(s, e.id, depth + 1, line, sh0);
    if child == 0 {
      ChildTooDear(mA, sA, src, depth, k, j, m, |Done(sA, src, k, j)|);
      Abandon(s, x, depth, mA, sA, sh0, 0);
      return false, sh0;
    }
    ghost var m2 := s.mem;
    ClonedParts(m, sh0, e.id, depth, m2, sh2, child);
    BesideFacts(mA, sA, m, sh0, x, depth, m2, sh2, child);
    AffordableFits(m, CopyCost(m, e.id, depth + 1));
    ghost var t: Spot;
    ok, t := AddEntry(s, x, child, e.name);
    if !ok {
      FilledParts(mA, sA, src, m, sh0, x, Done(sA, src, k, j));
      NoEntryRoom(mA, sA, src, x, m, sh0, depth, k, j, n, m2, sh2, child);
      AbandonBoth(s, child, x, depth, mA, sA, sh2);
      return false, sh0;
    }
    EntryDone(mA, sA, src, x, depth, k, j, m, sh0, n, m2, sh2, child, t);
    sh := AttachShape(sh2, x, t, child, n);
  }

  lemma CountsBlocks(s: Store)
    requires s.Ok()
    ensures s.geo.dataStart <= s.geo.blocks && s.DataCount() == |s.mem.blocks|
  {
    hide Store.Ok;
  }

  lemma ChildPlace(m: Mem, s: Shape, src: nat, n: Name)
    requires Sound(m, s, 0) && src in s.dirs && src in s.place && n in s.dirs[src]
    ensures s.dirs[src][n].id in s.place && |s.place[s.dirs[src][n].id].path| == |s.place[src].path| + 1 && ValidName(n)
  {
    EdgePlace(GraphOf(s.dirs), s.roots, s.place, src, n);
    Basics(m, s, 0);
    assert DirOk(m, src, s.dirs[src]);
  }

  lemma AffordableFits(m: Mem, c: Cost)
    requires Affordable(m, c)
    ensures c.fits
  {
  }

  lemma NoEntryRoom(mA: Mem, sA: Shape, src: nat, x: nat, m: Mem, sh: Shape, depth: nat, k: nat, j: nat, n: Name,
      m2: Mem, sh2: Shape, c: nat)
    requires Sound(mA, sA, 0) && src in sA.dirs && src in sA.place && k < PTRS_PER_NODE && j < ENTRIES_PER_BLOCK
    requires Building(mA, sA, src, x, depth, k, j, m, sh)
    requires n in sA.dirs[src] && sA.dirs[src][n] == Slot(k, j, EntryAt(mA, src, k, j).id)
             && sA.dirs[src][n].id in sA.place
    requires EntryAt(mA, src, k, j).id != 0 && ValidName(n) && 0 < c < |m2.nodes|
    requires Cloned(m, sh, sA.dirs[src][n].id, depth + 1, m2, sh2, c) && Refused(m2, x, c, n)
    ensures depth + 1 < COPY_DEPTH ==> !Affordable(mA, CopyCost(mA, src, depth))
  {
    hide *;
    var names := Done(sA, src, k, j);
    BuildingParts(mA, sA, src, x, depth, k, j, m, sh);
    ClonedParts(m, sh, sA.dirs[src][n].id, depth, m2, sh2, c);
    FilledParts(mA, sA, src, m, sh, x, names);
    BesideFacts(mA, sA, m, sh, x, depth, m2, sh2, c);
    DoneGains(mA, sA, src, k, j, n);
    ChildSame(mA, sA, m, sh, sA.dirs[src][n].id, depth);
    CompactCarried(m, sh, m2, sh2, x, |names|);
    NamesFit(mA, sA, src);
    RefusedHere(m2, sh2, x, c, n);
    NoRoomMeans(m2, x, |names|);
    EntryTooDear(mA, sA, src, depth, k, j, m, |names|, m2);
  }

  lemma RefusedHere(m: Mem, s: Shape, x: nat, c: nat, n: Name)
    requires Sound(m, s, 0) && x in s.dirs && n !in s.dirs[x] && ValidName(n) && 0 < c < |m.nodes|
             && Refused(m, x, c, n)
    ensures !Room(m, x)
  {
    Basics(m, s, 0);
    assert IsDir(m, x);
    assert DirOk(m, x, s.dirs[x]);
    RefusedMeans(m, s.own, x, s.dirs[x], c, n);
  }

  // ----- a directory has no more names than slots

  lemma NamesFit(m: Mem, s: Shape, d: nat)
    requires Sound(m, s, 0) && d in s.dirs
    ensures |s.dirs[d]| <= PTRS_PER_NODE * ENTRIES_PER_BLOCK
  {
    hide Sound;
    Basics(m, s, 0);
    var names := s.dirs[d].Keys;
    var f: map<Name, nat> := map n | n in names :: s.dirs[d][n].k * ENTRIES_PER_BLOCK + s.dirs[d][n].j;
    forall n | n in names ensures s.dirs[d][n].k < PTRS_PER_NODE && s.dirs[d][n].j < ENTRIES_PER_BLOCK {
      SlotRange(m, s, 0, d, n);
    }
    forall n, q | n in names && q in names && f[n] == f[q] ensures n == q {
      assert s.dirs[d][n].k == s.dirs[d][q].k && s.dirs[d][n].j == s.dirs[d][q].j;
      OneNamePerSlot(m, s, 0, d, n, q);
    }
    ImageSize(names, f);
    BelowSize(PTRS_PER_NODE * ENTRIES_PER_BLOCK);
    Subset((set n | n in names :: f[n]), Below(PTRS_PER_NODE * ENTRIES_PER_BLOCK));
    assert |names| == |s.dirs[d]|;
  }

  /** The directory half of `sklonuj_wezel_rekurencyjnie` (psf.cpp:2932-2960): into the fresh node `x`. */
  method CloneDir(s: Store, src: nat, x: nat, depth: nat, line: array<nat>, ghost mA: Mem, ghost sA: Shape)
    returns (id: nat, ghost sh: Shape)
    requires s.Ok() && s.pend == {} && Sound(mA, sA, 0) && src in sA.dirs && src in sA.place
    requires 0 < x < |mA.nodes| && mA.nodes[x].kind == Free && s.mem == WithNode(mA, x, ClearNode(Dir))
    requires line.Length == COPY_DEPTH && depth < COPY_DEPTH
    requires Ancestry(line[..depth + 1], sA, |sA.place[src].path| + 1)
    modifies s.ram, s`mem, s`pend, s`dirty, s`dirtyAll, s`hint, line
    ensures s.Ok() && s.pend == {} && line[..depth + 1] == old(line[..depth + 1])
    ensures id != 0 <==> Affordable(mA, CopyCost(mA, src, depth))
    ensures id == 0 ==> s.mem == mA
    ensures id != 0 ==> id == x && Cloned(mA, sA, src, depth, s.mem, sh, id)
    decreases COPY_DEPTH - depth, 3
  {
    hide *;
    sh := NewRootShape(sA, x, Dir);
    BuildingStarts(mA, sA, src, x, depth);
    var k := 0;
    while k < PTRS_PER_NODE
      invariant 0 <= k <= PTRS_PER_NODE
      invariant s.Ok() && s.pend == {} && line[..depth + 1] == old(line[..depth + 1])
      invariant Building(mA, sA, src, x, depth, k, 0, s.mem, sh)
    {
      var ok: bool;
      ok, sh := CloneRow(s, src, x, k, depth, line, mA, sA, sh);
      if !ok { return 0, sh; }
      k := k + 1;
    }
    DirCloned(mA, sA, src, x, depth, s.mem, sh);
    id := x;
  }

  lemma DirCloned(mA: Mem, sA: Shape, src: nat, x: nat, depth: nat, m: Mem, sh: Shape)
    requires Sound(mA, sA, 0) && src in sA.dirs && Building(mA, sA, src, x, depth, PTRS_PER_NODE, 0, m, sh)
    ensures Cloned(mA, sA, src, depth, m, sh, x) && Affordable(mA, CopyCost(mA, src, depth))
  {
    hide *;
    BuildingParts(mA, sA, src, x, depth, PTRS_PER_NODE, 0, m, sh);
    AllParts(mA, sA, src);
    FilledParts(mA, sA, src, m, sh, x, Done(sA, src, PTRS_PER_NODE, 0));
    AllBilled(mA, sA, src, depth, m);
    IsCloned(mA, sA, src, depth, m, sh, x);
  }

  lemma AllBilled(mA: Mem, sA: Shape, src: nat, depth: nat, m: Mem)
    requires Sound(mA, sA, 0) && src in sA.dirs && depth < COPY_DEPTH
    requires Billed(mA, src, depth, PTRS_PER_NODE, 0, m, |sA.dirs[src].Keys|)
    ensures Spent(mA, m, CopyCost(mA, src, depth).nodes, CopyCost(mA, src, depth).blocks)
    ensures Affordable(mA, CopyCost(mA, src, depth))
  {
    hide Sound, FreeNodes, FreeBlocks, CeilDiv, CopyCost, EntriesCost;
    DirCost(mA, sA, src, depth);
    assert |sA.dirs[src].Keys| == |sA.dirs[src]|;
    NothingLeftToPay(mA, src, depth);
  }

  lemma NothingLeftToPay(m: Mem, x: nat, depth: nat)
    requires depth < COPY_DEPTH
    ensures EntriesCost(m, x, depth, PTRS_PER_NODE, 0) == NOTHING
  {
  }

  lemma IsCloned(mA: Mem, sA: Shape, src: nat, depth: nat, m: Mem, sh: Shape, x: nat)
    requires Beside(mA, sA, m, sh, x, depth) && TreeAt(m, sh.dirs, x) == TreeAt(mA, sA.dirs, src)
    requires Spent(mA, m, CopyCost(mA, src, depth).nodes, CopyCost(mA, src, depth).blocks)
    ensures Cloned(mA, sA, src, depth, m, sh, x)
  {
    hide Sound, Extends, Fresh, TreeAt, FreeNodes, FreeBlocks, CopyCost;
  }

  /** One block of the source directory. */
  method CloneRow(s: Store, src: nat, x: nat, k: nat, depth: nat, line: array<nat>, ghost mA: Mem, ghost sA: Shape,
      ghost sh0: Shape)
    returns (ok: bool, ghost sh: Shape)
    requires s.Ok() && s.pend == {} && Sound(mA, sA, 0) && src in sA.dirs && src in sA.place
    requires Building(mA, sA, src, x, depth, k, 0, s.mem, sh0) && k < PTRS_PER_NODE
    requires line.Length == COPY_DEPTH && depth < COPY_DEPTH
    requires Ancestry(line[..depth + 1], sA, |sA.place[src].path| + 1)
    modifies s.ram, s`mem, s`pend, s`dirty, s`dirtyAll, s`hint, line
    ensures s.Ok() && s.pend == {} && line[..depth + 1] == old(line[..depth + 1])
    ensures ok ==> Building(mA, sA, src, x, depth, k + 1, 0, s.mem, sh)
    ensures !ok ==> s.mem == mA && !Affordable(mA, CopyCost(mA, src, depth))
    decreases COPY_DEPTH - depth, 2
  {
    hide *;
    sh := sh0;
    BuildingParts(mA, sA, src, x, depth, k, 0, s.mem, sh0);
    SourceSlot(mA, sA, s.mem, sh0, src, k);
    var b := s.NodeAt(src).ptrs[k];
    if b == NO_BLOCK {
      RowMissing(mA, sA, src, x, depth, k, s.mem, sh0);
      return true, sh0;
    }
    var j := 0;
    while j < ENTRIES_PER_BLOCK
      invariant 0 <= j <= ENTRIES_PER_BLOCK
      invariant s.Ok() && s.pend == {} && line[..depth + 1] == old(line[..depth + 1])
      invariant Building(mA, sA, src, x, depth, k, j, s.mem, sh)
    {
      ok, sh := CloneEntry(s, src, x, k, j, b, depth, line, mA, sA, sh);
      if !ok { return; }
      j := j + 1;
    }
    RowDone(mA, sA, src, x, depth, k, s.mem, sh);
    ok := true;
  }

  lemma SourceNode(m: Mem, s: Shape, src: nat)
    requires Sound(m, s, 0) && src in s.place
    ensures 0 < src < |m.nodes| && m.nodes[src].kind != Free && (src in s.dirs <==> m.nodes[src].kind == Dir)
    ensures PtrsSane(m, src) && (IsFile(m, src) <==> m.nodes[src].kind == File)
  {
    Basics(m, s, 0);
    OwnedPtrsSane(m, s.own, src);
    assert src in s.dirs <==> IsDir(m, src);
  }

  lemma NoNodeLeft(m: Mem, src: nat, depth: nat)
    requires forall i | 0 < i < |m.nodes| :: m.nodes[i].kind != Free
    ensures !Affordable(m, CopyCost(m, src, depth))
  {
    NoneLeft(m);
    hide EntriesCost, FreeBlocks;
  }

  lemma TooDeep(m: Mem, src: nat, depth: nat)
    requires depth >= COPY_DEPTH
    ensures !Affordable(m, CopyCost(m, src, depth))
  {
  }

  lemma AncestryGrows(line: seq<nat>, s: Shape, src: nat)
    requires src in s.place && Ancestry(line, s, |s.place[src].path|)
    ensures src !in line && Ancestry(line + [src], s, |s.place[src].path| + 1)
  {
  }

  /** `sklonuj_wezel_rekurencyjnie` (psf.cpp:2889-2960): a whole copy of the subtree at `src` beside the
      file system, or the memory exactly as it was. `line` is the source's ancestors, as on the C++ stack. */
  method Clone(s: Store, src: nat, depth: nat, line: array<nat>, ghost sA: Shape) returns (id: nat, ghost sh: Shape)
    requires s.Ok() && s.pend == {} && Sound(s.mem, sA, 0) && src in sA.place
    requires line.Length == COPY_DEPTH && depth <= COPY_DEPTH && Ancestry(line[..depth], sA, |sA.place[src].path|)
    modifies s.ram, s`mem, s`pend, s`dirty, s`dirtyAll, s`hint, line
    ensures s.Ok() && s.pend == {} && line[..depth] == old(line[..depth])
    ensures id != 0 <==> Affordable(old(s.mem), CopyCost(old(s.mem), src, depth))
    ensures id == 0 ==> s.mem == old(s.mem)
    ensures id != 0 ==> depth < COPY_DEPTH && Cloned(old(s.mem), sA, src, depth, s.mem, sh, id)
    decreases COPY_DEPTH - depth, 4
  {
    hide *;
    ghost var mA := s.mem;
    id, sh := 0, sA;
    if depth >= COPY_DEPTH {
      TooDeep(mA, src, depth);
      return;
    }
    AncestryGrows(line[..depth], sA, src);
    var i := 0;
    while i < depth
      invariant 0 <= i <= depth
    {
      assert line[i] == line[..depth][i];
      if line[i] == src { return; }
      i := i + 1;
    }
    SourceNode(mA, sA, src);
    var kind := s.NodeAt(src).kind;
    if kind == File {
      var sane := CheckPtrs(s, src);
      if !sane { return; }
    }
    line[depth] := src;
    assert line[..depth + 1] == old(line[..depth]) + [src];
    var x := s.AllocNode(kind);
    if x == 0 {
      NoNodeLeft(mA, src, depth);
      return 0, sh;
    }
    if kind == File {
      id, sh := CloneFile(s, src, x, depth, mA, sA);
    } else {
      id, sh := CloneDir(s, src, x, depth, line, mA, sA);
      assert line[..depth] == line[..depth + 1][..depth];
    }
  }

  // ----- the call

  /** The copy itself can be paid for, and its entry still finds room afterwards. */
  ghost predicate RoomForCopy(m: Mem, x: nat, d: nat) {
    var cost := CopyCost(m, x, 0);
    Affordable(m, cost) && (SlotLeft(m, d) || (PtrLeft(m, d) && cost.blocks < |FreeBlocks(m)|))
  }

  /** What a copy of the part of `v` at `p` into the folder `f` asks for, counted on the tree: no path more than 31
      names below `p`, a free node for each path, a free block for each 4096 bytes and each 64 entries begun, and for
      the new entry a slot in the blocks of `f`, which is node `d`, or one more free block. */
  ghost predicate RoomForTree(v: Tree, p: Path, f: Path, m: Mem, d: nat) {
    && (forall a: Path :: a in v && p <= a ==> |a| < |p| + 32)
    && |Inside(v, p)| <= |FreeNodes(m)|
    && var blocks, held := BlocksOf(v, Inside(v, p)), |BlocksHeld(m, d)|;
       && blocks <= |FreeBlocks(m)|
       && (|Children(v, f)| < 64 * held || (held < 490 && blocks < |FreeBlocks(m)|))
  }

  /** The copier's own bill and the count on the tree agree. */
  lemma RoomIs(m: Mem, s: Shape, root: nat, x: nat, d: nat)
    requires Rooted(m, s, root) && x in s.place && s.place[x].root == root && d in s.dirs && d in s.place
    ensures RoomForCopy(m, x, d) <==>
            RoomForTree(TreeAt(m, s.dirs, root), s.place[x].path, s.place[d].path, m, d)
  {
    CostCounts(m, s, root, x, 0);
    InPlace(m, s, d);
    ChildrenNumber(m, s, root, d);
    PartsCount(m, d, s.dirs[d]);
    InsideHolds(m, s, root, s.place[x].path);
    hide Sound, TreeAt, CopyCost, Inside, Children, BlocksOf, BlocksHeld, DirOk, FreeNodes, FreeBlocks,
      SlotLeft, PtrLeft;
  }

  ghost predicate CanCopy(s: Store, path: CString, folder: CString)
    reads s`mem, s`shape, s`geo
  {
    var v, p, f := s.Contents(), PathOf(path), PathOf(folder);
    && CanonicalPath(path) && CanonicalPath(folder) && p != [] && p in v
    && DirThere(v, f) && !(p <= f) && f + [Last(p)] !in v
    && RoomForTree(v, p, f, s.mem, Walk(GraphOf(s.shape.dirs), s.geo.root, f))
  }

  lemma RoomThen(m: Mem, s: Shape, x: nat, m2: Mem, s2: Shape, c: nat, d: nat)
    requires Sound(m, s, 0) && Cloned(m, s, x, 0, m2, s2, c) && Affordable(m, CopyCost(m, x, 0)) && d in s.place
    ensures Room(m2, d) <==> RoomForCopy(m, x, d)
  {
    hide *;
    CloneSpent(m, s, x, m2, s2, c);
    NodeCarried(m, s, m2, s2, d);
    RoomByParts(m2, d);
    SameSlots(m, m2, d);
    SpentLeaves(m, m2, CopyCost(m, x, 0));
    RoomForCopyIs(m, x, d);
  }

  lemma RoomForCopyIs(m: Mem, x: nat, d: nat)
    ensures RoomForCopy(m, x, d) <==>
            Affordable(m, CopyCost(m, x, 0))
                && (SlotLeft(m, d) || (PtrLeft(m, d) && CopyCost(m, x, 0).blocks < |FreeBlocks(m)|))
  {
    hide CopyCost, SlotLeft, PtrLeft, FreeBlocks;
  }

  lemma CloneSpent(m: Mem, s: Shape, x: nat, m2: Mem, s2: Shape, c: nat)
    requires Cloned(m, s, x, 0, m2, s2, c)
    ensures Spent(m, m2, CopyCost(m, x, 0).nodes, CopyCost(m, x, 0).blocks) && Extends(m, s, m2, s2)
  {
    hide Sound, Extends, Fresh, TreeAt, CopyCost, FreeNodes, FreeBlocks;
  }

  lemma SpentLeaves(m: Mem, m2: Mem, cost: Cost)
    requires Spent(m, m2, cost.nodes, cost.blocks)
    ensures AllUsed(m2) <==> |FreeBlocks(m)| == cost.blocks
    ensures cost.blocks <= |FreeBlocks(m)|
  {
    NoneLeft(m2);
    hide FreeNodes;
    if |FreeBlocks(m2)| == 0 {
      assert FreeBlocks(m2) == {};
      forall b | 0 <= b < |m2.used| ensures m2.used[b] { FreeListed(m2, b); }
    }
  }

  lemma FreeListed(m: Mem, b: nat)
    requires b < |m.used|
    ensures b in FreeBlocks(m) <==> !m.used[b]
  {
  }

  lemma SameSlots(m: Mem, m2: Mem, d: nat)
    requires forall k: nat :: PtrAt(m2, d, k) == PtrAt(m, d, k)
    requires forall k: nat, j: nat :: EntryAt(m2, d, k, j) == EntryAt(m, d, k, j)
    ensures (SlotLeft(m2, d) <==> SlotLeft(m, d)) && (PtrLeft(m2, d) <==> PtrLeft(m, d))
  {
    hide PtrAt, EntryAt;
  }

  /** Seen from the root, the tree of a node is the subtree at its place. */
  lemma TreeBelow(m: Mem, s: Shape, root: nat, x: nat)
    requires Rooted(m, s, root) && x in s.place && s.place[x].root == root
    ensures TreeAt(m, s.dirs, x) == Sub(TreeAt(m, s.dirs, root), s.place[x].path)
  {
    WalkAt(GraphOf(s.dirs), s.roots, s.place, root, s.place[x].path);
    var a := s.place[x].path;
    hide *;
    forall p: Path ensures Walk(GraphOf(s.dirs), x, p) == Walk(GraphOf(s.dirs), root, a + p) {
      WalkConcat(GraphOf(s.dirs), root, a, p);
    }
    SubByWalks(m, m, s.dirs, s.dirs, root, x, a);
  }

  /** The finished copy is entered: the tree gains what the source's subtree holds. */
  lemma CopyEffect(m: Mem, s: Shape, root: nat, x: nat, d: nat, n: Name, m2: Mem, s2: Shape, c: nat, t: Spot)
    requires Rooted(m, s, root) && x in s.place && s.place[x].root == root && d in s.dirs && d in s.place
             && s.place[d].root == root
    requires Cloned(m, s, x, 0, m2, s2, c) && n !in s.dirs[d] && ValidName(n) && SpotFits(m2, d, t)
    ensures d in s2.dirs && d in s2.place
    ensures var m3, s3 := Added(m2, d, t, Entry(c, n)), AttachShape(s2, d, t, c, n);
            && Rooted(m3, s3, root)
            && TreeAt(m3, s3.dirs, root)
                == Graft(TreeAt(m, s.dirs, root), s.place[d].path + [n], Sub(TreeAt(m, s.dirs, root), s.place[x].path))
  {
    CloneRoots(m, s, root, x, m2, s2, c, d);
    hide *;
    ExtendsTree(m, s, m2, s2, 0, root);
    TreeBelow(m, s, root, x);
    AttachRooted(m2, s2, root, d, t, c, n, Added(m2, d, t, Entry(c, n)), AttachShape(s2, d, t, c, n));
  }

  lemma CloneRoots(m: Mem, s: Shape, root: nat, x: nat, m2: Mem, s2: Shape, c: nat, d: nat)
    requires Rooted(m, s, root) && Cloned(m, s, x, 0, m2, s2, c) && d in s.dirs && d in s.place
    ensures Sound(m, s, 0) && Sound(m2, s2, 0) && Extends(m, s, m2, s2) && root in s.place && c != root
            && c !in s.place && 0 < c < |m2.nodes|
    ensures s2.roots == {root, c} && root in s2.dirs && d in s2.dirs && d in s2.place && s2.dirs[d] == s.dirs[d]
            && s2.place[d] == s.place[d]
    ensures TreeAt(m2, s2.dirs, c) == TreeAt(m, s.dirs, x) && c in s2.roots && Fresh(s, s2, c, 0) && 0 !in s2.dirs
  {
    Basics(m, s, 0);
    Basics(m2, s2, 0);
    hide Sound, Fresh, TreeAt, CopyCost, FreeNodes, FreeBlocks;
  }

  /** `kopiuj_twor_z_pzb` (psf.cpp:4280-4318). */
  method Copy(s: Store, path: CString, folder: CString, level: nat) returns (ok: bool)
    requires s.ready ==> s.Valid()
    modifies s.ram, s.disk, s`mem, s`shape, s`pend, s`dirty, s`dirtyAll, s`hint, s`lastFlushOk, s`transfers
    ensures s.ready ==> s.Valid()
    ensures ok <==> s.ready && level <= 5 && old(CanCopy(s, path, folder))
    ensures ok ==>
              s.Contents()
              == Graft(old(s.Contents()), PathOf(folder) + [Last(PathOf(path))], Sub(old(s.Contents()), PathOf(path)))
    ensures ok ==> s.Through(old(s.transfers))
    ensures !ok ==> s.mem == old(s.mem) && s.shape == old(s.shape) && s.disk[..] == old(s.disk[..])
  {
    hide Store.Ok, Store.Through, Store.Contents, Rooted, Lookup, LookupParent, TreeAt, CanonicalPath, PathOf, PtrAt;
    hide ValidName, Walk, RoomForCopy, RoomForTree, Graft, Sub;
    if !s.ready || level > 5 { return false; }
    TwoArrays(s);
    var safe := CheckPath(path);
    var safeFolder := CheckPath(folder);
    if !safe || !safeFolder { return false; }
    MoveConditions(s, path, folder);
    LookupWalks(s, path);
    var x, _ := Resolve(s, path, false);
    var d, name := Resolve(s, path, true);
    var d2, _ := Resolve(s, folder, false);
    if x == 0 || d == 0 || d2 == 0 { return false; }
    if s.NodeAt(d2).kind != Dir { return false; }
    TakenThere(s, d2, name);
    var taken, _, _, _, _ := FindNamed(s, d2, name);
    if taken { return false; }
    if s.NodeAt(x).kind == Dir {
      BytePrefixIsPathPrefix(path, folder);
      var inside := PrefixTest(path, folder);
      if inside { return false; }
    } else {
      NothingInsideFile(s, x, d2);
    }
    RoomIs(s.mem, s.shape, s.geo.root, x, d2);
    ok := CopyIn(s, x, d2, name);
  }

  lemma LookupWalks(s: Store, path: CString)
    ensures CanonicalPath(path) ==> Lookup(s, path) == Walk(GraphOf(s.shape.dirs), s.geo.root, PathOf(path))
  {
  }

  method CopyIn(s: Store, x: nat, d: nat, name: Name) returns (ok: bool)
    requires s.Valid() && x in s.shape.place && d in s.shape.dirs && d in s.shape.place && name !in s.shape.dirs[d]
             && ValidName(name)
    requires s.shape.place[x].root == s.geo.root && s.shape.place[d].root == s.geo.root
    modifies s.ram, s.disk, s`mem, s`shape, s`pend, s`dirty, s`dirtyAll, s`hint, s`lastFlushOk, s`transfers
    ensures s.Valid()
    ensures ok <==> old(RoomForCopy(s.mem, x, d))
    ensures ok ==>
              s.Contents()
              == Graft(old(s.Contents()), old(s.shape.place[d].path) + [name],
                       Sub(old(s.Contents()), old(s.shape.place[x].path)))
    ensures ok ==> s.Through(old(s.transfers))
    ensures !ok ==> s.mem == old(s.mem) && s.shape == old(s.shape) && s.disk[..] == old(s.disk[..])
  {
    hide *;
    TwoArrays(s);
    ghost var root, m0, s0 := s.geo.root, s.mem, s.shape;
    RootedIsSound(m0, s0, root);
    var line := new nat[COPY_DEPTH](_ => 0);
    NoAncestors(line[..0], s0, x);
    ghost var s2: Shape;
    var c: nat;
    c, s2 := Clone(s, x, 0, line, s0);
    if c == 0 {
      NotPaid(m0, x, d);
      return false;
    }
    ghost var m2 := s.mem;
    CloneRoots(m0, s0, root, x, m2, s2, c, d);
    RoomThen(m0, s0, x, m2, s2, c, d);
    ghost var t: Spot;
    ok, t := AddEntry(s, d, c, name);
    if !ok {
      RefusedHere(m2, s2, d, c, name);
      Abandon(s, c, 0, m0, s0, s2, 0);
      return;
    }
    AddedHadRoom(m2, d, t);
    CopyEffect(m0, s0, root, x, d, name, m2, s2, c, t);
    Commit(s, AttachShape(s2, d, t, c, name));
  }

  lemma RootedIsSound(m: Mem, s: Shape, root: nat)
    requires Rooted(m, s, root)
    ensures Sound(m, s, 0)
  {
  }

  lemma NoAncestors(line: seq<nat>, s: Shape, x: nat)
    requires line == [] && x in s.place
    ensures Ancestry(line, s, |s.place[x].path|)
  {
  }

  lemma NotPaid(m: Mem, x: nat, d: nat)
    requires !Affordable(m, CopyCost(m, x, 0))
    ensures !RoomForCopy(m, x, d)
  {
  }
}
