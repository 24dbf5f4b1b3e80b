// A copy under construction beside the file system, taking it back, and copying one file
// (psf.cpp:2889-2931).
module BspClone {
  import opened BspTypes
  import opened BspPaths
  import opened BspForest
  import opened BspState
  import opened BspStore
  import opened BspDirectory
  import opened BspTree
  import opened BspEffects
  import opened BspApi
  import opened BspFiles
  import opened BspPurge
  import opened BspExtend

  /** The nodes added to sA are the tree of `x`, within the depth limit. */
  ghost predicate Fresh(sA: Shape, sh: Shape, x: nat, depth: nat) {
    forall y <- sh.place :: y !in sA.place ==> sh.place[y].root == x && |sh.place[y].path| + depth < COPY_DEPTH
  }

  /** `id` is the root of a finished copy of the subtree at `src`, beside an unchanged file system. */
  ghost predicate Cloned(mA: Mem, sA: Shape, src: nat, depth: nat, m: Mem, sh: Shape, id: nat) {
    && Sound(m, sh, 0) && Extends(mA, sA, m, sh)
    && id !in sA.place && id in sh.place && sh.roots == sA.roots + {id}
    && Fresh(sA, sh, id, depth)
    && TreeAt(m, sh.dirs, id) == TreeAt(mA, sA.dirs, src)
    && Spent(mA, m, CopyCost(mA, src, depth).nodes, CopyCost(mA, src, depth).blocks)
  }

  // ----- counting

  lemma CountNewRoot(m: Mem, x: nat, kind: Kind)
    requires 0 < x < |m.nodes| && m.nodes[x].kind == Free && kind != Free
    ensures Spent(m, WithNode(m, x, ClearNode(kind)), 1, 0)
  {
    var m' := WithNode(m, x, ClearNode(kind));
    assert FreeNodes(m') == FreeNodes(m) - {x};
    assert FreeBlocks(m') == FreeBlocks(m);
  }

  lemma CountGrown(m: Mem, i: nat, k: nat, b: nat, c: Block)
    requires Sized(m) && i < |m.nodes| && k < PTRS_PER_NODE && b < |m.blocks| && !m.used[b]
    ensures Spent(m, Grown(m, i, k, b, c), 0, 1)
  {
    var m' := Grown(m, i, k, b, c);
    assert FreeNodes(m') == FreeNodes(m);
    assert FreeBlocks(m') == FreeBlocks(m) - {b};
  }

  lemma CountAdded(m: Mem, d: nat, t: Spot, e: Entry)
    requires SpotFits(m, d, t)
    ensures Spent(m, Added(m, d, t, e), 0, if t.grew then 1 else 0)
  {
    if t.grew { CountGrown(m, d, t.k, t.block, Blank); }
    var m1 := GrownAt(m, d, t);
    var m' := Added(m, d, t, e);
    assert FreeNodes(m') == FreeNodes(m1);
    assert FreeBlocks(m') == FreeBlocks(m1);
  }

  lemma NoneLeft(m: Mem)
    ensures AllUsed(m) ==> |FreeBlocks(m)| == 0
    ensures (forall i | 0 < i < |m.nodes| :: m.nodes[i].kind != Free) ==> |FreeNodes(m)| == 0
  {
    if AllUsed(m) { assert FreeBlocks(m) == {}; }
    if forall i | 0 < i < |m.nodes| :: m.nodes[i].kind != Free { assert FreeNodes(m) == {}; }
  }

  lemma SpentTwice(m: Mem, m1: Mem, m2: Mem, a: nat, b: nat, c: nat, d: nat)
    requires Spent(m, m1, a, b) && Spent(m1, m2, c, d)
    ensures Spent(m, m2, a + c, b + d)
  {
  }

  // ----- taking an unfinished copy back

  /** Frees the tree of `x`, which is all that was added. */
  method Abandon(s: Store, x: nat, depth: nat, ghost mA: Mem, ghost sA: Shape, ghost sh: Shape, ghost busy: nat)
    requires s.Ok() && Sound(mA, sA, 0) && Sound(s.mem, sh, busy) && busy !in sh.dirs && Extends(mA, sA, s.mem, sh)
    requires x in sh.roots && x !in sA.place && depth < COPY_DEPTH && Fresh(sA, sh, x, depth)
    requires s.pend <= {NodeBlock(s.geo, x)}
    modifies s.ram, s`mem, s`pend, s`dirty, s`dirtyAll, s`hint
    ensures s.Ok() && s.mem == mA && s.pend == {}
  {
    hide Store.Ok, Sound, Extends, Intact, Purged, Fresh, DepthOk;
    ghost var m := s.mem;
    FreshDepth(mA, sA, m, sh, busy, x, depth);
    AllIntact(m, sh, busy, x);
    var freed := FreeCopy(s, x, depth, m, sh, busy);
    AbandonedIsBefore(mA, sA, m, sh, busy, x, s.mem);
  }

  lemma AllIntact(m: Mem, sh: Shape, busy: nat, x: nat)
    requires Sound(m, sh, busy)
    ensures Intact(m, m, sh, x)
  {
    OwnersOwned(m, sh, busy);
  }

  lemma TreeOfRoot(m: Mem, sh: Shape, busy: nat, x: nat)
    requires Sound(m, sh, busy) && x in sh.roots
    ensures x in sh.place && sh.place[x] == Place(x, [])
    ensures forall y <- sh.place :: InSubtree(sh.place, x, y) <==> sh.place[y].root == x
  {
    hide Struct;
  }

  lemma FreshDepth(mA: Mem, sA: Shape, m: Mem, sh: Shape, busy: nat, x: nat, depth: nat)
    requires Sound(mA, sA, 0) && Sound(m, sh, busy) && Extends(mA, sA, m, sh) && x in sh.roots && x !in sA.place
    requires Fresh(sA, sh, x, depth) && depth < COPY_DEPTH
    ensures x in sh.place && DepthOk(sh, x, depth)
    ensures forall y: nat :: InSubtree(sh.place, x, y) <==> y in sh.place && y !in sA.place
  {
    TreeOfRoot(m, sh, busy, x);
    forall y <- sh.place ensures sh.place[y].root == x <==> y !in sA.place {
      if y in sA.place { RootOf(mA, sA, 0, y); }
    }
    hide Sound;
    Basics(mA, sA, 0);
  }

  lemma AbandonedIsBefore(mA: Mem, sA: Shape, m: Mem, sh: Shape, busy: nat, x: nat, m': Mem)
    requires Sound(mA, sA, 0) && Sound(m, sh, busy) && Extends(mA, sA, m, sh) && Purged(m, m', sh, x)
    requires forall y: nat :: InSubtree(sh.place, x, y) <==> y in sh.place && y !in sA.place
    ensures m' == mA
  {
    OwnersLive(m, sh, busy);
    hide Sound, Extends, InSubtree;
    Restored(mA, sA, m, sh, busy, m');
  }

  lemma OwnersLive(m: Mem, sh: Shape, busy: nat)
    requires Sound(m, sh, busy)
    ensures forall b <- sh.own :: b < |m.used| && sh.own[b].node in sh.place
  {
    forall b <- sh.own ensures b < |m.used| && sh.own[b].node in sh.place {
      assert PtrAt(m, sh.own[b].node, sh.own[b].k) == b;
      assert sh.own[b].node in Live(m);
    }
  }

  /** The nodes added to sA are the trees of `x` and `c`. */
  ghost predicate FreshTwo(sA: Shape, sh: Shape, x: nat, c: nat, depth: nat) {
    forall y <- sh.place :: y !in sA.place ==>
      || (sh.place[y].root == x && |sh.place[y].path| + depth < COPY_DEPTH)
      || (sh.place[y].root == c && |sh.place[y].path| + depth + 1 < COPY_DEPTH)
  }

  /** Frees first the tree of `c`, not yet entered anywhere, then that of `x`. */
  method AbandonBoth(s: Store, c: nat, x: nat, depth: nat, ghost mA: Mem, ghost sA: Shape, ghost sh: Shape)
    requires s.Ok() && Sound(mA, sA, 0) && Sound(s.mem, sh, 0) && Extends(mA, sA, s.mem, sh)
    requires x in sh.roots && x !in sA.place && c in sh.roots && c !in sA.place && c != x
    requires depth + 1 < COPY_DEPTH && FreshTwo(sA, sh, x, c, depth) && s.pend == {}
    modifies s.ram, s`mem, s`pend, s`dirty, s`dirtyAll, s`hint
    ensures s.Ok() && s.mem == mA && s.pend == {}
  {
    hide Store.Ok, Sound, Extends, Intact, Purged, FreshTwo, DepthOk;
    ghost var m := s.mem;
    TwoDepths(mA, sA, m, sh, x, c, depth);
    AllIntact(m, sh, 0, c);
    Basics(m, sh, 0);
    var freed := FreeCopy(s, c, depth + 1, m, sh, 0);
    ghost var m1 := s.mem;
    OtherIntact(m, m1, sh, c, x);
    freed := FreeCopy(s, x, depth, m, sh, 0);
    BothGone(mA, sA, m, sh, x, c, m1, s.mem);
  }

  lemma TwoDepths(mA: Mem, sA: Shape, m: Mem, sh: Shape, x: nat, c: nat, depth: nat)
    requires Sound(mA, sA, 0) && Sound(m, sh, 0) && Extends(mA, sA, m, sh)
    requires x in sh.roots && x !in sA.place && c in sh.roots && c !in sA.place && c != x
    requires FreshTwo(sA, sh, x, c, depth)
    ensures x in sh.place && c in sh.place && DepthOk(sh, x, depth) && DepthOk(sh, c, depth + 1)
    ensures forall y: nat :: InSubtree(sh.place, x, y) || InSubtree(sh.place, c, y) <==> y in sh.place && y !in sA.place
    ensures forall y: nat :: !(InSubtree(sh.place, x, y) && InSubtree(sh.place, c, y))
  {
    TreeOfRoot(m, sh, 0, x);
    TreeOfRoot(m, sh, 0, c);
    forall y <- sh.place ensures sh.place[y].root == x || sh.place[y].root == c <==> y !in sA.place {
      if y in sA.place { RootOf(mA, sA, 0, y); }
    }
    Basics(mA, sA, 0);
    hide Sound;
  }

  lemma OtherIntact(m: Mem, m1: Mem, sh: Shape, c: nat, x: nat)
    requires Sound(m, sh, 0) && Purged(m, m1, sh, c)
    requires forall y: nat :: !(InSubtree(sh.place, x, y) && InSubtree(sh.place, c, y))
    ensures Intact(m, m1, sh, x)
  {
    AllIntact(m, sh, 0, x);
    hide Sound, InSubtree;
  }

  lemma BothGone(mA: Mem, sA: Shape, m: Mem, sh: Shape, x: nat, c: nat, m1: Mem, m2: Mem)
    requires Sound(mA, sA, 0) && Sound(m, sh, 0) && Extends(mA, sA, m, sh)
    requires Purged(m, m1, sh, c) && Purged(m1, m2, sh, x)
    requires forall y: nat ::
               InSubtree(sh.place, x, y) || InSubtree(sh.place, c, y) <==> y in sh.place && y !in sA.place
    ensures m2 == mA
  {
    OwnersLive(m, sh, 0);
    hide Sound, Extends, InSubtree;
    Restored(mA, sA, m, sh, 0, m2);
  }

  // ----- files

  /** A file's tree is a single leaf. */
  lemma FileTree(m: Mem, s: Shape, busy: nat, f: nat)
    requires Sound(m, s, busy) && f in s.place && f !in s.dirs
    ensures TreeAt(m, s.dirs, f) == Leaf(ItemOf(m, f))
  {
    Basics(m, s, busy);
    forall p: Path ensures Walk(GraphOf(s.dirs), f, p) == if p == [] then f else 0 {
      if p != [] {
        assert p == [p[0]] + p[1..];
        WalkConcat(GraphOf(s.dirs), f, [p[0]], p[1..]);
        var none: Path := [];
        WalkStep(GraphOf(s.dirs), f, none, p[0]);
        assert none + [p[0]] == [p[0]];
        WalkFromZero(GraphOf(s.dirs), p[1..]);
      }
    }
    hide Sound, ItemOf, Walk;
  }

  lemma BlockCopied(m: Mem, s: Shape, x: nat, data: seq<Byte>, k: nat, b: nat)
    requires Sound(m, s, x) && x in s.place && IsFile(m, x) && k < PTRS_PER_NODE && b < |m.blocks| && !m.used[b]
    requires ChunksTo(m, x, data, k) && forall l: nat | l >= k :: PtrAt(m, x, l) == NO_BLOCK
    ensures var m' := Grown(m, x, k, b, Bytes(Chunk(data, k)));
            && Sound(m', s.(own := s.own[b := Owner(x, k)]), x) && OnlyNode(m, m', x) && IsFile(m', x)
            && ChunksTo(m', x, data, k + 1) && (forall l: nat | l >= k + 1 :: PtrAt(m', x, l) == NO_BLOCK)
            && Spent(m, m', 0, 1) && m'.nodes[x].size == m.nodes[x].size
  {
    var m' := Grown(m, x, k, b, Bytes(Chunk(data, k)));
    assert PtrAt(m, x, k) == NO_BLOCK;
    Basics(m, s, x);
    GrownOwned(m, s.own, x, k, b, Bytes(Chunk(data, k)));
    assert !IsDir(m, x);
    StructFrame(m, s.own, s.dirs, x, m', s.own[b := Owner(x, k)], x, x);
    SameLive(m, m', x);
    CountGrown(m, x, k, b, Bytes(Chunk(data, k)));
    assert Sized(m) && b !in s.own;
    PtrsOwned(m, s, x, x);
    hide Sound, OnlyNode;
    forall l: nat ensures PtrAt(m', x, l) == if l == k then b else PtrAt(m, x, l) {}
  }

  lemma PtrsOwned(m: Mem, s: Shape, busy: nat, x: nat)
    requires Sound(m, s, busy)
    ensures forall k: nat {:trigger PtrAt(m, x, k)} :: PtrAt(m, x, k) != NO_BLOCK ==> PtrAt(m, x, k) in s.own
  {
  }

  lemma SourceFile(m: Mem, s: Shape, f: nat)
    requires Sound(m, s, 0) && f in s.place && IsFile(m, f)
    ensures CeilDiv(m.nodes[f].size, BLOCK_BYTES) <= PTRS_PER_NODE && |FileBytes(m, f)| == m.nodes[f].size
    ensures PtrsSane(m, f) && f !in s.dirs && f < |m.nodes| && |m.nodes[f].ptrs| == PTRS_PER_NODE
    ensures forall k: nat | k * BLOCK_BYTES < m.nodes[f].size ::
              k < PTRS_PER_NODE && m.nodes[f].ptrs[k] < |m.blocks| && m.used[m.nodes[f].ptrs[k]]
  {
    assert FileOk(m, f);
    assert !IsDir(m, f);
    FilePtrs(m, f);
    OwnedPtrsSane(m, s.own, f);
    hide Forest, Owned, Holding;
    forall k: nat | k * BLOCK_BYTES < m.nodes[f].size
      ensures k < PTRS_PER_NODE && m.nodes[f].ptrs[k] < |m.blocks| && m.used[m.nodes[f].ptrs[k]]
    {
      assert m.nodes[f].ptrs[k] == PtrAt(m, f, k);
    }
  }

  /** The fresh node, as the first addition to (mA, sA). */
  lemma FreshStart(mA: Mem, sA: Shape, x: nat, kind: Kind, depth: nat)
    requires Sound(mA, sA, 0) && 0 < x < |mA.nodes| && mA.nodes[x].kind == Free && kind != Free && depth < COPY_DEPTH
    ensures var m, sh := WithNode(mA, x, ClearNode(kind)), NewRootShape(sA, x, kind);
            && Sound(m, sh, 0) && Sound(m, sh, x) && Extends(mA, sA, m, sh) && x !in sA.place && x in sh.place
            && sh.place[x] == Place(x, [])
            && sh.roots == sA.roots + {x} && Fresh(sA, sh, x, depth) && Spent(mA, m, 1, 0)
            && (x in sh.dirs <==> kind == Dir) && (forall k: nat :: PtrAt(m, x, k) == NO_BLOCK)
            && m.nodes[x] == ClearNode(kind) && x < |m.nodes|
            && (kind == Dir ==> sh.dirs[x] == map[])
  {
    hide Sound, Extends, FreeNodes, FreeBlocks, Fresh, NewRootShape;
    FreshAdded(mA, sA, x, kind);
    FreshPlace(mA, sA, x, kind, depth);
    CountNewRoot(mA, x, kind);
  }

  lemma FreshPlace(mA: Mem, sA: Shape, x: nat, kind: Kind, depth: nat)
    requires Sound(mA, sA, 0) && 0 < x < |mA.nodes| && mA.nodes[x].kind == Free && kind != Free && depth < COPY_DEPTH
    ensures var m, sh := WithNode(mA, x, ClearNode(kind)), NewRootShape(sA, x, kind);
            && x !in sA.place && x in sh.place && sh.place[x] == Place(x, []) && sh.roots == sA.roots + {x}
            && Fresh(sA, sh, x, depth)
            && (x in sh.dirs <==> kind == Dir) && (kind == Dir ==> sh.dirs[x] == map[])
            && (forall k: nat :: PtrAt(m, x, k) == NO_BLOCK)
  {
    hide Sound;
    Basics(mA, sA, 0);
  }

  lemma FreshAdded(mA: Mem, sA: Shape, x: nat, kind: Kind)
    requires Sound(mA, sA, 0) && 0 < x < |mA.nodes| && mA.nodes[x].kind == Free && kind != Free
    ensures var m, sh := WithNode(mA, x, ClearNode(kind)), NewRootShape(sA, x, kind);
            Sound(m, sh, 0) && Sound(m, sh, x) && Extends(mA, sA, m, sh)
  {
    var m, sh := WithNode(mA, x, ClearNode(kind)), NewRootShape(sA, x, kind);
    hide Sound, Extends, OnlyNode, FreeNodes, FreeBlocks;
    Basics(mA, sA, 0);
    SizedNow(mA, sA);
    NewRootSound(mA, sA, 0, x, kind);
    ExtendsSelf(mA, sA, 0);
    NewRootKeeps(mA, sA, x, kind);
    SoundAnyBusy(m, sh, x);
    ExtendsStep(mA, sA, mA, sA, m, sh, x);
    SameSized(mA, x, ClearNode(kind));
  }

  lemma SameSized(m: Mem, x: nat, w: Node)
    requires x < |m.nodes|
    ensures Sized(m) ==> SameSizes(m, WithNode(m, x, w))
  {
  }

  lemma SizedNow(m: Mem, s: Shape)
    requires Sound(m, s, 0)
    ensures Sized(m) && |m.blocks| < NO_BLOCK
  {
  }

  lemma SoundAnyBusy(m: Mem, s: Shape, x: nat)
    requires Sound(m, s, 0)
    ensures Sound(m, s, x)
  {
    Basics(m, s, 0);
    hide Forest, Owned, DirOk, FileOk;
  }

  lemma NewRootKeeps(mA: Mem, sA: Shape, x: nat, kind: Kind)
    requires Sound(mA, sA, 0) && x !in sA.place
    ensures var sh := NewRootShape(sA, x, kind);
            && (forall y <- sA.place :: y in sh.place && sh.place[y] == sA.place[y])
            && (forall d <- sA.dirs :: d in sh.dirs && sh.dirs[d] == sA.dirs[d])
  {
    Basics(mA, sA, 0);
  }

  /** The source's k-th block, still in place while the copy grows. */
  lemma SourceBlock(mA: Mem, sA: Shape, m: Mem, sh: Shape, src: nat, k: nat)
    requires Sound(mA, sA, 0) && src in sA.place && IsFile(mA, src) && Extends(mA, sA, m, sh)
    requires k * BLOCK_BYTES < mA.nodes[src].size
    ensures src != 0 && src < |m.nodes| && m.nodes[src] == mA.nodes[src] && k < PTRS_PER_NODE
            && |m.nodes[src].ptrs| == PTRS_PER_NODE
    ensures m.nodes[src].ptrs[k] < |m.blocks|
    ensures var n := Min(mA.nodes[src].size - k * BLOCK_BYTES, BLOCK_BYTES);
            var bytes := BytesOf(m.blocks[m.nodes[src].ptrs[k]]);
            && |bytes| == BLOCK_BYTES
            && bytes[..n] + seq(BLOCK_BYTES - n, _ => 0) == Chunk(FileBytes(mA, src), k)
  {
    SourceFile(mA, sA, src);
    Basics(mA, sA, 0);
    SameBlock(mA, sA, m, sh, src, k);
    assert Sized(mA) && FileOk(mA, src);
    OwnedPtrsValid(mA, sA.own, src);
    hide Sound, Extends, FileBytes, FileOk;
    BlockFacts(mA, src, k);
    var n := Min(mA.nodes[src].size - k * BLOCK_BYTES, BLOCK_BYTES);
    var bytes := BytesOf(m.blocks[m.nodes[src].ptrs[k]]);
    var c := Chunk(FileBytes(mA, src), k);
    forall i | 0 <= i < BLOCK_BYTES ensures (bytes[..n] + seq(BLOCK_BYTES - n, _ => 0))[i] == c[i] {}
  }

  lemma SameBlock(mA: Mem, sA: Shape, m: Mem, sh: Shape, src: nat, k: nat)
    requires Sound(mA, sA, 0) && src in sA.place && Extends(mA, sA, m, sh) && src < |mA.nodes|
    requires k < PTRS_PER_NODE && |mA.nodes[src].ptrs| == PTRS_PER_NODE && mA.nodes[src].ptrs[k] != NO_BLOCK
    ensures src < |m.nodes| && m.nodes[src] == mA.nodes[src]
    ensures mA.nodes[src].ptrs[k] < |m.blocks| && m.blocks[mA.nodes[src].ptrs[k]] == mA.blocks[mA.nodes[src].ptrs[k]]
  {
    assert PtrAt(mA, src, k) in sA.own;
    hide Sound;
  }

  /** One block of a file copied into a block of its own; without one the copy is taken back. */
  method CloneBlock(s: Store, src: nat, x: nat, k: nat, depth: nat, ghost mA: Mem, ghost sA: Shape, ghost sh0: Shape,
      ghost data: seq<Byte>)
    returns (ok: bool, ghost sh: Shape)
    requires s.Ok() && Sound(mA, sA, 0) && src in sA.place && IsFile(mA, src) && depth < COPY_DEPTH
    requires data == FileBytes(mA, src) && k * BLOCK_BYTES < mA.nodes[src].size && k < PTRS_PER_NODE
    requires Copying(s.mem, sh0, x, k, mA, sA, data) && s.pend <= {NodeBlock(s.geo, x)}
    modifies s.ram, s`mem, s`pend, s`dirty, s`dirtyAll, s`hint
    ensures s.Ok()
    ensures ok ==> Copying(s.mem, sh, x, k + 1, mA, sA, data) && s.pend <= {NodeBlock(s.geo, x)}
    ensures !ok ==> s.mem == mA && s.pend == {} && |FreeBlocks(mA)| == k
  {
    hide Store.Ok, Sound, Extends, ChunksTo, PtrAt, Fresh, FileBytes, OnlyNode, FreeNodes, FreeBlocks;
    sh := sh0;
    ghost var m := s.mem;
    SourceBlock(mA, sA, m, sh, src, k);
    CopyingNode(m, sh, x, k, mA, sA, data);
    var size := s.NodeAt(src).size;
    var from := s.NodeAt(src).ptrs[k];
    var b := s.AllocBlock();
    if b == NO_BLOCK {
      NoneLeft(m);
      FreshKept(sA, sh, x, depth);
      Abandon(s, x, depth, mA, sA, sh, x);
      return false, sh;
    }
    AllocApart(m, b, from, mA, sA, sh, x, src, k);
    var part := Min(size - k * BLOCK_BYTES, BLOCK_BYTES);
    var chunk := BytesOf(s.DataAt(from))[..part] + seq(BLOCK_BYTES - part, _ => 0);
    BlockCopied(m, sh, x, data, k, b);
    CopyExtends(mA, sA, m, sh, x, k, b, Bytes(Chunk(data, k)));
    s.PutData(b, Bytes(chunk));
    s.PutNode(x, WithPtr(s.NodeAt(x), k, b));
    s.MarkData(b);
    SameGrown(m, x, k, b, Bytes(Chunk(data, k)), s.mem);
    SpentTwice(mA, m, s.mem, 1, k, 0, 1);
    sh := sh.(own := sh.own[b := Owner(x, k)]);
    ok := true;
  }

  /** The first `k` blocks of the file are in node `x`, all else as in (mA, sA). */
  ghost predicate Copying(m: Mem, sh: Shape, x: nat, k: nat, mA: Mem, sA: Shape, data: seq<Byte>) {
    && IsFile(m, x) && m.nodes[x].size == 0 && x !in sA.place && x in sh.place
    && Sound(m, sh, x) && Extends(mA, sA, m, sh) && sh == NewRootShape(sA, x, File).(own := sh.own)
    && ChunksTo(m, x, data, k) && (forall l: nat {:trigger PtrAt(m, x, l)} | l >= k :: PtrAt(m, x, l) == NO_BLOCK)
    && Spent(mA, m, 1, k)
  }

  lemma CopyingNode(m: Mem, sh: Shape, x: nat, k: nat, mA: Mem, sA: Shape, data: seq<Byte>)
    requires Copying(m, sh, x, k, mA, sA, data) && Sound(mA, sA, 0)
    ensures 0 < x < |m.nodes| && |m.nodes[x].ptrs| == PTRS_PER_NODE && x !in sh.dirs && Sized(m) && x in sh.roots
  {
    Basics(m, sh, x);
    assert !IsDir(m, x);
  }

  /** The file half of `sklonuj_wezel_rekurencyjnie`: block by block into the fresh node `x`. */
  method CloneFile(s: Store, src: nat, x: nat, depth: nat, ghost mA: Mem, ghost sA: Shape)
    returns (id: nat, ghost sh: Shape)
    requires s.Ok() && s.pend == {} && Sound(mA, sA, 0) && src in sA.place && IsFile(mA, src) && depth < COPY_DEPTH
    requires 0 < x < |mA.nodes| && mA.nodes[x].kind == Free && s.mem == WithNode(mA, x, ClearNode(File))
    modifies s.ram, s`mem, s`pend, s`dirty, s`dirtyAll, s`hint
    ensures s.Ok() && s.pend == {}
    ensures id != 0 <==> Affordable(mA, CopyCost(mA, src, depth))
    ensures id == 0 ==> s.mem == mA
    ensures id != 0 ==> id == x && Cloned(mA, sA, src, depth, s.mem, sh, id)
  {
    hide Store.Ok, Sound, Extends, Copying, FileBytes, FreeNodes, FreeBlocks, Cloned;
    SourceFile(mA, sA, src);
    SourceCost(mA, src, depth);
    sh := NewRootShape(sA, x, File);
    ghost var data := FileBytes(mA, src);
    CopyingStarts(mA, sA, src, x, depth, data);
    var size := s.NodeAt(src).size;
    var need := CeilDiv(size, BLOCK_BYTES);
    var k := 0;
    while k < need
      invariant 0 <= k <= need
      invariant s.Ok() && s.pend <= {NodeBlock(s.geo, x)} && Copying(s.mem, sh, x, k, mA, sA, data)
    {
      var taken: bool;
      taken, sh := CloneBlock(s, src, x, k, depth, mA, sA, sh, data);
      if !taken { return 0, sh; }
      k := k + 1;
    }
    ghost var m := s.mem;
    CopyingNode(m, sh, x, k, mA, sA, data);
    FileCloned(mA, sA, src, depth, x, m, sh, data);
    s.PutNode(x, s.NodeAt(x).(size := size));
    s.MarkNode(x);
    id := x;
  }

  lemma CopyingStarts(mA: Mem, sA: Shape, src: nat, x: nat, depth: nat, data: seq<Byte>)
    requires Sound(mA, sA, 0) && src in sA.place && IsFile(mA, src) && depth < COPY_DEPTH
    requires 0 < x < |mA.nodes| && mA.nodes[x].kind == Free
    ensures var m, sh := WithNode(mA, x, ClearNode(File)), NewRootShape(sA, x, File);
            Copying(m, sh, x, 0, mA, sA, data) && 0 < src < |m.nodes| && m.nodes[src] == mA.nodes[src]
  {
    var m, sh := WithNode(mA, x, ClearNode(File)), NewRootShape(sA, x, File);
    FreshStart(mA, sA, x, File, depth);
    SourceKept(mA, sA, m, sh, src);
    NoChunks(m, x, data);
    hide Sound, Extends, ChunksTo, Fresh, FreeNodes, FreeBlocks;
  }

  lemma NothingSpent(m: Mem, x: nat, w: Node)
    requires x < |m.nodes| && w.kind == m.nodes[x].kind
    ensures Spent(m, WithNode(m, x, w), 0, 0)
  {
    assert FreeNodes(WithNode(m, x, w)) == FreeNodes(m);
    assert FreeBlocks(WithNode(m, x, w)) == FreeBlocks(m);
  }

  lemma SourceCost(mA: Mem, src: nat, depth: nat)
    requires IsFile(mA, src) && depth < COPY_DEPTH
    ensures CopyCost(mA, src, depth) == Cost(1, CeilDiv(mA.nodes[src].size, BLOCK_BYTES), true)
  {
  }

  lemma SourceKept(mA: Mem, sA: Shape, m: Mem, sh: Shape, src: nat)
    requires Sound(mA, sA, 0) && Extends(mA, sA, m, sh) && src in sA.place
    ensures 0 < src < |m.nodes| && m.nodes[src] == mA.nodes[src]
  {
    Basics(mA, sA, 0);
  }

  lemma FreshKept(sA: Shape, sh: Shape, x: nat, depth: nat)
    requires sh == NewRootShape(sA, x, File).(own := sh.own) && depth < COPY_DEPTH
    ensures Fresh(sA, sh, x, depth) && x in sh.roots
  {
  }

  /** A newly taken block is not the source's: the source still reads the same. */
  lemma AllocApart(m: Mem, b: nat, from: nat, mA: Mem, sA: Shape, sh: Shape, busy: nat, src: nat, k: nat)
    requires Sound(mA, sA, 0) && src in sA.place && IsFile(mA, src) && Extends(mA, sA, m, sh)
             && k * BLOCK_BYTES < mA.nodes[src].size
    requires Sound(m, sh, busy)
    requires b < |m.used| && !m.used[b] && k < PTRS_PER_NODE && |mA.nodes[src].ptrs| == PTRS_PER_NODE
             && from == mA.nodes[src].ptrs[k]
    ensures from != b
  {
    SourceFile(mA, sA, src);
    assert PtrAt(mA, src, k) in sA.own;
  }

  lemma CopyExtends(mA: Mem, sA: Shape, m: Mem, sh: Shape, x: nat, k: nat, b: nat, c: Block)
    requires Sound(mA, sA, 0) && Extends(mA, sA, m, sh) && Sound(m, sh, x) && x !in sA.place
    requires x < |m.nodes| && k < |m.nodes[x].ptrs| && b < |m.blocks| && b < |m.used| && !m.used[b]
    requires OnlyNode(m, Grown(m, x, k, b, c), x)
    ensures Extends(mA, sA, Grown(m, x, k, b, c), sh.(own := sh.own[b := Owner(x, k)]))
  {
    assert b !in sh.own && |m.used| == |m.blocks|;
    assert b !in sA.own;
    var sh' := sh.(own := sh.own[b := Owner(x, k)]);
    KeptParts(mA, sA, m, sh);
    hide Struct, Forest, OnlyNode;
    ExtendsStep(mA, sA, m, sh, Grown(m, x, k, b, c), sh', x);
  }

  lemma KeptParts(mA: Mem, sA: Shape, m: Mem, sh: Shape)
    requires Extends(mA, sA, m, sh)
    ensures (forall y <- sA.place :: y in sh.place) && (forall b <- sA.own :: b in sh.own)
            && (forall d <- sA.dirs :: d in sh.dirs)
    ensures sA.roots <= sh.roots
  {
  }

  lemma SameGrown(m: Mem, x: nat, k: nat, b: nat, c: Block, m': Mem)
    requires x < |m.nodes| && k < |m.nodes[x].ptrs| && b < |m.blocks| && b < |m.used|
    requires m'.nodes == m.nodes[x := WithPtr(m.nodes[x], k, b)] && m'.used == m.used[b := true]
    requires m'.blocks == m.blocks[b := Blank][b := c]
    ensures m' == Grown(m, x, k, b, c)
  {
    assert m.blocks[b := Blank][b := c] == m.blocks[b := c];
  }

  lemma FileCloned(mA: Mem, sA: Shape, src: nat, depth: nat, x: nat, m: Mem, sh: Shape, data: seq<Byte>)
    requires Sound(mA, sA, 0) && src in sA.place && IsFile(mA, src) && depth < COPY_DEPTH && data == FileBytes(mA, src)
    requires Copying(m, sh, x, CeilDiv(mA.nodes[src].size, BLOCK_BYTES), mA, sA, data) && x < |m.nodes|
    ensures Cloned(mA, sA, src, depth, WithNode(m, x, m.nodes[x].(size := mA.nodes[src].size)), sh, x)
    ensures Affordable(mA, CopyCost(mA, src, depth))
  {
    var size := mA.nodes[src].size;
    var m' := WithNode(m, x, m.nodes[x].(size := size));
    SourceFile(mA, sA, src);
    assert |data| == size;
    WriteSound(m, sh, x, data, CeilDiv(size, BLOCK_BYTES));
    NothingSpent(m, x, m.nodes[x].(size := size));
    SourceCost(mA, src, depth);
    KeptParts(mA, sA, m, sh);
    FreshKept(sA, sh, x, depth);
    LeafCopied(mA, sA, m', sh, src, x);
    hide Sound, Extends, OnlyNode, Fresh, ItemOf, TreeAt, ChunksTo, FreeNodes, FreeBlocks;
    ExtendsStep(mA, sA, m, sh, m', sh, x);
  }

  lemma LeafCopied(mA: Mem, sA: Shape, m: Mem, sh: Shape, src: nat, x: nat)
    requires Sound(mA, sA, 0) && Sound(m, sh, 0) && src in sA.place && IsFile(mA, src) && x in sh.place
    requires IsFile(m, x) && FileBytes(m, x) == FileBytes(mA, src)
    ensures TreeAt(m, sh.dirs, x) == TreeAt(mA, sA.dirs, src)
  {
    assert src !in sA.dirs by { assert !IsDir(mA, src); }
    assert x !in sh.dirs by { assert !IsDir(m, x); }
    assert ItemOf(m, x) == ItemOf(mA, src);
    hide Sound, ItemOf, TreeAt;
    FileTree(mA, sA, 0, src);
    FileTree(m, sh, 0, x);
  }
}
