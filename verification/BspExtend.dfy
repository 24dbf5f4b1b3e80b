// Building new nodes beside a sound file system: what was there stays as it was, what copying
// a subtree costs, and how an abandoned copy is taken back exactly.
module BspExtend {
  import opened BspTypes
  import opened BspPaths
  import opened BspForest
  import opened BspState
  import opened BspStore
  import opened BspDirectory
  import opened BspTree
  import opened BspEffects
  import opened BspFiles
  import opened BspPurge

  /** Every node, block and directory of (m0, s0) is unchanged in (m, s). */
  ghost predicate Extends(m0: Mem, s0: Shape, m: Mem, s: Shape) {
    && SameSizes(m0, m)
    && (forall y <- s0.place :: y in s.place && s.place[y] == s0.place[y] && y < |m.nodes| && m.nodes[y] == m0.nodes[y])
    && (forall b <- s0.own :: b in s.own && s.own[b] == s0.own[b] && b < |m.blocks| && m.blocks[b] == m0.blocks[b])
    && (forall d <- s0.dirs :: d in s.dirs && s.dirs[d] == s0.dirs[d])
    && s0.roots <= s.roots
  }

  lemma ExtendsSelf(m: Mem, s: Shape, busy: nat)
    requires Sound(m, s, busy)
    ensures Extends(m, s, m, s)
  {
    Basics(m, s, busy);
    OwnersOwned(m, s, busy);
    hide Struct, Forest;
  }

  lemma ExtendsTwice(m0: Mem, s0: Shape, m1: Mem, s1: Shape, m2: Mem, s2: Shape)
    requires Extends(m0, s0, m1, s1) && Extends(m1, s1, m2, s2)
    ensures Extends(m0, s0, m2, s2)
  {
  }

  /** A step that changes only a new node keeps the old ones. */
  lemma ExtendsStep(m0: Mem, s0: Shape, m: Mem, s: Shape, m': Mem, s': Shape, f: nat)
    requires Sound(m0, s0, 0) && Extends(m0, s0, m, s) && OnlyNode(m, m', f) && SameSizes(m, m') && f !in s0.place
    requires forall y <- s0.place :: y in s'.place && s'.place[y] == s.place[y]
    requires forall b <- s0.own :: b in s'.own && s'.own[b] == s.own[b]
    requires forall d <- s0.dirs :: d in s'.dirs && s'.dirs[d] == s.dirs[d]
    requires s0.roots <= s'.roots
    ensures Extends(m0, s0, m', s')
  {
    forall b <- s0.own ensures b < |m'.blocks| && m'.blocks[b] == m0.blocks[b] {
      OwnerLives(m0, s0, b);
      PtrCarried(m0, m, s0.own[b].node, s0.own[b].k);
    }
  }

  lemma OwnerLives(m: Mem, s: Shape, b: nat)
    requires Sound(m, s, 0) && b in s.own
    ensures s.own[b].node in s.place && PtrAt(m, s.own[b].node, s.own[b].k) == b < |m.blocks|
  {
    assert s.own[b].node in Live(m) by {
      assert PtrAt(m, s.own[b].node, s.own[b].k) == b;
    }
  }

  lemma PtrCarried(m0: Mem, m: Mem, y: nat, k: nat)
    requires |m.nodes| == |m0.nodes| && y < |m.nodes| && m.nodes[y] == m0.nodes[y]
    ensures PtrAt(m, y, k) == PtrAt(m0, y, k)
  {
  }

  /** A live node's pointers, entries and bytes are carried over. */
  lemma NodeCarried(m0: Mem, s0: Shape, m: Mem, s: Shape, y: nat)
    requires Sound(m0, s0, 0) && Extends(m0, s0, m, s) && y in s0.place
    ensures y < |m.nodes| && m.nodes[y] == m0.nodes[y]
    ensures forall k: nat :: PtrAt(m, y, k) == PtrAt(m0, y, k)
    ensures forall k: nat, j: nat :: EntryAt(m, y, k, j) == EntryAt(m0, y, k, j)
    ensures ItemOf(m, y) == ItemOf(m0, y)
  {
    var own := s0.own;
    assert forall k: nat :: PtrAt(m0, y, k) != NO_BLOCK ==> PtrAt(m0, y, k) in own;
    assert |m0.blocks| < NO_BLOCK;
    hide Sound;
    forall k: nat ensures PtrAt(m, y, k) == PtrAt(m0, y, k) {}
    forall k: nat, j: nat ensures EntryAt(m, y, k, j) == EntryAt(m0, y, k, j) {}
    forall z: nat ensures ByteAt(m, y, z) == ByteAt(m0, y, z) {}
    hide Extends, EntryAt, ByteAt;
    if y < |m.nodes| { assert FileBytes(m, y) == FileBytes(m0, y); }
  }

  /** Trees that were there look the same. */
  lemma ExtendsTree(m0: Mem, s0: Shape, m: Mem, s: Shape, busy: nat, r: nat)
    requires Sound(m0, s0, 0) && Sound(m, s, busy) && Extends(m0, s0, m, s) && r in s0.place
    ensures TreeAt(m, s.dirs, r) == TreeAt(m0, s0.dirs, r)
  {
    forall p: Path
      ensures Walk(GraphOf(s.dirs), r, p) == Walk(GraphOf(s0.dirs), r, p)
      ensures Walk(GraphOf(s0.dirs), r, p) != 0
              ==> ItemOf(m, Walk(GraphOf(s0.dirs), r, p)) == ItemOf(m0, Walk(GraphOf(s0.dirs), r, p))
    {
      hide *;
      ExtendsWalk(m0, s0, m, s, busy, r, p);
    }
    hide Sound, Extends;
    SameByWalks(m0, m, s0.dirs, s.dirs, r);
  }

  lemma ExtendsWalk(m0: Mem, s0: Shape, m: Mem, s: Shape, busy: nat, r: nat, p: Path)
    requires Sound(m0, s0, 0) && Sound(m, s, busy) && Extends(m0, s0, m, s) && r in s0.place
    ensures var w := Walk(GraphOf(s0.dirs), r, p);
            Walk(GraphOf(s.dirs), r, p) == w && (w != 0 ==> w in s0.place && ItemOf(m, w) == ItemOf(m0, w))
  {
    hide Struct, Forest;
    Basics(m0, s0, 0);
    Basics(m, s, busy);
    var g, h := GraphOf(s0.dirs), GraphOf(s.dirs);
    forall d <- s0.place.Keys
      ensures (d in g <==> d in h) && (d in g ==> g[d] == h[d] && forall n <- g[d] :: g[d][n] in s0.place.Keys)
    {
      assert IsDir(m, d) <==> IsDir(m0, d);
      if d in g {
        forall n <- g[d] ensures g[d][n] in s0.place { EdgePlace(g, s0.roots, s0.place, d, n); }
      }
    }
    WalkAgrees(g, h, s0.place.Keys, r, p);
    var w := Walk(g, r, p);
    if w != 0 { NodeCarried(m0, s0, m, s, w); }
  }

  /** Freeing exactly what was added gives back the memory there was. */
  lemma Restored(mA: Mem, sA: Shape, m: Mem, s: Shape, busy: nat, m': Mem)
    requires Sound(mA, sA, 0) && Sound(m, s, busy) && Extends(mA, sA, m, s) && SameSizes(m, m')
    requires forall y | 0 <= y < |m.nodes| ::
             m'.nodes[y] == if y in s.place && y !in sA.place then FREE_NODE else m.nodes[y]
    requires forall b | 0 <= b < |m.used| ::
               if b in s.own && s.own[b].node !in sA.place then !m'.used[b] && m'.blocks[b] == Blank
               else m'.used[b] == m.used[b] && m'.blocks[b] == m.blocks[b]
    ensures m' == mA
  {
    forall y | 0 <= y < |m.nodes| ensures m'.nodes[y] == mA.nodes[y] {
      hide *;
      NodeRestored(mA, sA, m, s, busy, y);
    }
    forall b | 0 <= b < |m.used|
      ensures m'.used[b] == mA.used[b] && m'.blocks[b] == mA.blocks[b]
    {
      hide *;
      BlockRestored(mA, sA, m, s, busy, b);
    }
    hide Sound, Extends;
    assert m'.nodes == mA.nodes && m'.used == mA.used && m'.blocks == mA.blocks;
  }

  lemma NodeRestored(mA: Mem, sA: Shape, m: Mem, s: Shape, busy: nat, y: nat)
    requires Sound(mA, sA, 0) && Sound(m, s, busy) && Extends(mA, sA, m, s) && y < |m.nodes|
    ensures y < |mA.nodes|
    ensures (if y in s.place && y !in sA.place then FREE_NODE else m.nodes[y]) == mA.nodes[y]
  {
    hide Forest;
    if y !in sA.place {
      assert y !in Live(mA);
      assert y == 0 || mA.nodes[y].kind == Free;
      if y !in s.place { assert y !in Live(m); }
    }
  }

  lemma BlockRestored(mA: Mem, sA: Shape, m: Mem, s: Shape, busy: nat, b: nat)
    requires Sound(mA, sA, 0) && Sound(m, s, busy) && Extends(mA, sA, m, s) && b < |m.used|
    ensures b < |mA.used| && b < |mA.blocks| && b < |m.blocks|
    ensures if b in s.own && s.own[b].node !in sA.place then !mA.used[b] && mA.blocks[b] == Blank
            else mA.used[b] == m.used[b] && mA.blocks[b] == m.blocks[b]
  {
    hide Forest;
    if b in sA.own {
      OwnerLives(mA, sA, b);
    } else if b in s.own && s.own[b].node in sA.place {
      PtrCarried(mA, m, s.own[b].node, s.own[b].k);
    }
  }

  // ----- what is left, and what a copy costs

  ghost function FreeNodes(m: Mem): set<nat> {
    set i | 0 < i < |m.nodes| && m.nodes[i].kind == Free
  }

  datatype Cost = Cost(nodes: nat, blocks: nat, fits: bool)

  function Plus(a: Cost, b: Cost): Cost {
    Cost(a.nodes + b.nodes, a.blocks + b.blocks, a.fits && b.fits)
  }

  const NOTHING := Cost(0, 0, true)

  /** Nodes and blocks a copy of the subtree at `x` takes; it does not fit when the tree is too deep. */
  function CopyCost(m: Mem, x: nat, depth: nat): Cost
    decreases COPY_DEPTH - depth, PTRS_PER_NODE + 1, 0
  {
    if depth >= COPY_DEPTH || x >= |m.nodes| then Cost(0, 0, false)
    else if m.nodes[x].kind == File then Cost(1, CeilDiv(m.nodes[x].size, BLOCK_BYTES), true)
    else Plus(Cost(1, CeilDiv(m.nodes[x].size, ENTRIES_PER_BLOCK), true), EntriesCost(m, x, depth, 0, 0))
  }

  /** The part of it for the children from slot (k, j) on. */
  function EntriesCost(m: Mem, x: nat, depth: nat, k: nat, j: nat): Cost
    requires depth < COPY_DEPTH && k <= PTRS_PER_NODE && j <= ENTRIES_PER_BLOCK
    decreases COPY_DEPTH - depth, PTRS_PER_NODE - k, ENTRIES_PER_BLOCK - j
  {
    if k == PTRS_PER_NODE then NOTHING
    else if j == ENTRIES_PER_BLOCK then EntriesCost(m, x, depth, k + 1, 0)
    else if EntryAt(m, x, k, j).id == 0 then EntriesCost(m, x, depth, k, j + 1)
    else Plus(CopyCost(m, EntryAt(m, x, k, j).id, depth + 1), EntriesCost(m, x, depth, k, j + 1))
  }

  /** Does the cost fit what is left? */
  ghost predicate Affordable(m: Mem, c: Cost) {
    c.fits && c.nodes <= |FreeNodes(m)| && c.blocks <= |FreeBlocks(m)|
  }

  /** m' has `nodes` nodes and `blocks` blocks fewer to give. */
  ghost predicate Spent(m: Mem, m': Mem, nodes: nat, blocks: nat) {
    && |FreeNodes(m')| + nodes == |FreeNodes(m)|
    && |FreeBlocks(m')| + blocks == |FreeBlocks(m)|
  }

  lemma {:induction false} RowWithoutEntries(m: Mem, x: nat, depth: nat, k: nat, j: nat)
    requires depth < COPY_DEPTH && k < PTRS_PER_NODE && j <= ENTRIES_PER_BLOCK
    requires forall h: nat :: EntryAt(m, x, k, h).id == 0
    ensures EntriesCost(m, x, depth, k, j) == EntriesCost(m, x, depth, k + 1, 0)
    decreases ENTRIES_PER_BLOCK - j
  {
    if j < ENTRIES_PER_BLOCK { RowWithoutEntries(m, x, depth, k, j + 1); }
  }

  /** The cost of a live subtree is the same in any extension. */
  lemma {:induction false} CostCarried(m0: Mem, s0: Shape, m: Mem, s: Shape, x: nat, depth: nat)
    requires Sound(m0, s0, 0) && Extends(m0, s0, m, s) && x in s0.place
    ensures CopyCost(m, x, depth) == CopyCost(m0, x, depth)
    decreases COPY_DEPTH - depth, PTRS_PER_NODE + 1, 0
  {
    hide Sound, Extends;
    NodeCarried(m0, s0, m, s, x);
    SizesKept(m0, s0, m, s);
    if depth < COPY_DEPTH && m.nodes[x].kind != File { EntriesCarried(m0, s0, m, s, x, depth, 0, 0); }
  }

  lemma SizesKept(m0: Mem, s0: Shape, m: Mem, s: Shape)
    requires Extends(m0, s0, m, s)
    ensures SameSizes(m0, m)
  {
  }

  lemma {:induction false} EntriesCarried(m0: Mem, s0: Shape, m: Mem, s: Shape, x: nat, depth: nat, k: nat, j: nat)
    requires Sound(m0, s0, 0) && Extends(m0, s0, m, s) && x in s0.place
    requires depth < COPY_DEPTH && k <= PTRS_PER_NODE && j <= ENTRIES_PER_BLOCK
    ensures EntriesCost(m, x, depth, k, j) == EntriesCost(m0, x, depth, k, j)
    decreases COPY_DEPTH - depth, PTRS_PER_NODE - k, ENTRIES_PER_BLOCK - j
  {
    hide Sound, Extends;
    if k == PTRS_PER_NODE {
    } else if j == ENTRIES_PER_BLOCK {
      EntriesCarried(m0, s0, m, s, x, depth, k + 1, 0);
    } else {
      NodeCarried(m0, s0, m, s, x);
      EntriesCarried(m0, s0, m, s, x, depth, k, j + 1);
      if EntryAt(m0, x, k, j).id != 0 {
        EntryLives(m0, s0, x, k, j);
        CostCarried(m0, s0, m, s, EntryAt(m0, x, k, j).id, depth + 1);
      }
    }
  }

  lemma EntryLives(m: Mem, s: Shape, x: nat, k: nat, j: nat)
    requires Sound(m, s, 0) && EntryAt(m, x, k, j).id != 0 && x in s.place
    ensures IsDir(m, x) ==> x in s.dirs && EntryAt(m, x, k, j).id in s.place
    ensures IsDir(m, x)
  {
    OnlyDirsList(m, s, x, k, j);
    assert x in s.dirs;
    var n := SlotName(m, s, 0, x, k, j);
  }

  lemma OnlyDirsList(m: Mem, s: Shape, x: nat, k: nat, j: nat)
    requires Sound(m, s, 0) && EntryAt(m, x, k, j).id != 0 && x in s.place
    ensures IsDir(m, x) && 0 !in s.dirs
  {
    Basics(m, s, 0);
    assert IsDir(m, x) || IsFile(m, x);
  }
}
