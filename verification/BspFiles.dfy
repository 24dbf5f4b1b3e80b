// Writing and reading files (psf.cpp:2802-2850, 3137-3623).
module BspFiles {
  import opened BspTypes
  import opened BspPaths
  import opened BspForest
  import opened BspState
  import opened BspStore
  import opened BspDirectory
  import opened BspTree
  import opened BspEffects
  import opened BspApi

  ghost predicate FileThere(v: Tree, path: CString) {
    CanonicalPath(path) && PathOf(path) in v && v[PathOf(path)].FileItem?
  }

  ghost function FreeBlocks(m: Mem): set<nat> {
    set b | 0 <= b < |m.used| && !m.used[b]
  }

  // ----- the pointer check

  ghost predicate PtrsSane(m: Mem, f: nat) {
    && (forall k: nat {:trigger PtrAt(m, f, k)} :: PtrAt(m, f, k) != NO_BLOCK ==>
          PtrAt(m, f, k) < |m.used| && m.used[PtrAt(m, f, k)])
    && (forall j: nat, k: nat {:trigger PtrAt(m, f, j), PtrAt(m, f, k)} ::
          j < k && PtrAt(m, f, k) != NO_BLOCK ==> PtrAt(m, f, j) != PtrAt(m, f, k))
  }

  /** The loop shared by `wskazniki_wezla_poprawne` and `wskazniki_pliku_poprawne` (psf.cpp:2084-2149, 2802-2850). */
  method CheckNodePtrs(s: Store, f: nat) returns (ok: bool)
    requires s.Ok() && s.NodeId(f)
    ensures ok <==> PtrsSane(s.mem, f)
  {
    hide Store.Ok;
    var w := s.NodeAt(f);
    var k := 0;
    while k < PTRS_PER_NODE
      invariant 0 <= k <= PTRS_PER_NODE
      invariant forall l: nat {:trigger PtrAt(s.mem, f, l)} | l < k && PtrAt(s.mem, f, l) != NO_BLOCK ::
                  PtrAt(s.mem, f, l) < |s.mem.used| && s.mem.used[PtrAt(s.mem, f, l)]
      invariant forall j: nat, l: nat {:trigger PtrAt(s.mem, f, j), PtrAt(s.mem, f, l)} | j < l < k
                && PtrAt(s.mem, f, l) != NO_BLOCK ::
                  PtrAt(s.mem, f, j) != PtrAt(s.mem, f, l)
    {
      var b := w.ptrs[k];
      assert b == PtrAt(s.mem, f, k);
      if b != NO_BLOCK {
        if b >= s.DataCount() || !s.UsedAt(b) { return false; }
        var j := 0;
        while j < k
          invariant 0 <= j <= k
          invariant forall l: nat {:trigger PtrAt(s.mem, f, l)} | l < j :: PtrAt(s.mem, f, l) != b
        {
          assert w.ptrs[j] == PtrAt(s.mem, f, j);
          if w.ptrs[j] == b { return false; }
          j := j + 1;
        }
      }
      k := k + 1;
    }
    ok := true;
  }

  /** `wskazniki_pliku_poprawne` (psf.cpp:2802-2850). */
  method CheckPtrs(s: Store, f: nat) returns (ok: bool)
    requires s.Ok() && s.NodeId(f)
    ensures ok <==> s.mem.nodes[f].kind == File && PtrsSane(s.mem, f)
  {
    hide Store.Ok, PtrsSane;
    if s.NodeAt(f).kind != File { return false; }
    ok := CheckNodePtrs(s, f);
  }

  lemma OwnedPtrsSane(m: Mem, own: map<nat, Owner>, f: nat)
    requires Sized(m) && Owned(m, own)
    ensures PtrsSane(m, f)
  {
  }

  // ----- reserving blocks

  /** Pointers have+lo .. have+|ids| of `f` hold fresh blocks; everything else is as in m0. */
  ghost predicate Holding(m0: Mem, m: Mem, f: nat, have: nat, ids: seq<nat>, lo: nat) {
    && lo <= |ids| && have + |ids| <= PTRS_PER_NODE && Sized(m0) && f < |m0.nodes|
    && |m.nodes| == |m0.nodes| && |m.used| == |m0.used| && m.blocks == m0.blocks
    && (forall i | 0 <= i < |m.nodes| && i != f :: m.nodes[i] == m0.nodes[i])
    && m.nodes[f].kind == m0.nodes[f].kind && m.nodes[f].size == m0.nodes[f].size
    && |m.nodes[f].ptrs| == PTRS_PER_NODE
    && (forall k | 0 <= k < PTRS_PER_NODE ::
          m.nodes[f].ptrs[k] == if have + lo <= k < have + |ids| then ids[k - have] else m0.nodes[f].ptrs[k])
    && (forall b | 0 <= b < |m.used| :: m.used[b] <==> m0.used[b] || b in ids[lo..])
    && (forall b <- ids :: b < |m0.used| && !m0.used[b] && m0.blocks[b] == Blank)
    && (forall i, j | 0 <= i < j < |ids| :: ids[i] != ids[j])
    && (forall k | have <= k < PTRS_PER_NODE :: m0.nodes[f].ptrs[k] == NO_BLOCK)
  }

  lemma HoldingNone(m0: Mem, m: Mem, f: nat, have: nat, ids: seq<nat>)
    requires Holding(m0, m, f, have, ids, |ids|)
    ensures m == m0
  {
    assert m.nodes[f].ptrs == m0.nodes[f].ptrs;
    assert m.nodes == m0.nodes;
    assert m.used == m0.used;
  }

  lemma HoldOne(m0: Mem, m: Mem, f: nat, have: nat, ids: seq<nat>, b: nat)
    requires Holding(m0, m, f, have, ids, 0) && have + |ids| < PTRS_PER_NODE
    requires b < |m.used| && !m.used[b] && Sized(m) && m0.blocks[b] == Blank
    ensures Holding(m0, Grown(m, f, have + |ids|, b, Blank), f, have, ids + [b], 0)
  {
    var m' := Grown(m, f, have + |ids|, b, Blank);
    assert m'.blocks == m.blocks;
    assert ids[0..] == ids && (ids + [b])[0..] == ids + [b];
    hide Sized;
  }

  lemma ReleaseHeld(m0: Mem, m: Mem, f: nat, have: nat, ids: seq<nat>, lo: nat)
    requires Holding(m0, m, f, have, ids, lo) && lo < |ids| && Sized(m)
    ensures have + lo < PTRS_PER_NODE == |m.nodes[f].ptrs|
    ensures m.nodes[f].ptrs[have + lo] == ids[lo] < |m.used| && m.used[ids[lo]]
    ensures Holding(m0, Shrunk(m, f, have + lo), f, have, ids, lo + 1)
  {
    assert ids[lo] in ids;
    var m' := Shrunk(m, f, have + lo);
    assert ids[lo..] == [ids[lo]] + ids[lo+1..];
    assert ids[lo] !in ids[lo+1..];
    assert m'.blocks == m.blocks by { assert m.blocks[ids[lo]] == Blank; }
    hide Sized;
  }

  function SetOf(ids: seq<nat>): set<nat> {
    set b | b in ids
  }

  lemma {:induction false} DistinctCount(ids: seq<nat>)
    requires forall i, j | 0 <= i < j < |ids| :: ids[i] != ids[j]
    ensures |SetOf(ids)| == |ids|
  {
    if ids != [] {
      var front, last := ids[..|ids|-1], ids[|ids|-1];
      assert ids == front + [last];
      DistinctCount(front);
      assert SetOf(ids) == SetOf(front) + {last};
      assert last !in front;
    }
  }

  lemma HeldCount(m0: Mem, m: Mem, f: nat, have: nat, ids: seq<nat>)
    requires Holding(m0, m, f, have, ids, 0)
    ensures |FreeBlocks(m0)| >= |ids|
    ensures AllUsed(m) ==> |FreeBlocks(m0)| == |ids|
  {
    DistinctCount(ids);
    assert SetOf(ids) <= FreeBlocks(m0);
    Subset(SetOf(ids), FreeBlocks(m0));
    if AllUsed(m) {
      assert ids[0..] == ids;
      assert FreeBlocks(m0) == SetOf(ids);
    }
  }

  lemma GrowBusy(m: Mem, s: Shape, f: nat, k: nat, b: nat)
    requires Sound(m, s, f) && f in s.place && k < PTRS_PER_NODE && PtrAt(m, f, k) == NO_BLOCK && f < |m.nodes|
    requires b < |m.blocks| && !m.used[b] && m.nodes[f].kind == File
    ensures Sound(Grown(m, f, k, b, Blank), s.(own := s.own[b := Owner(f, k)]), f)
            && OnlyNode(m, Grown(m, f, k, b, Blank), f)
  {
    Basics(m, s, f);
    GrownOwned(m, s.own, f, k, b, Blank);
    assert !IsDir(m, f);
    StructFrame(m, s.own, s.dirs, f, Grown(m, f, k, b, Blank), s.own[b := Owner(f, k)], f, f);
    SameLive(m, Grown(m, f, k, b, Blank), f);
  }

  /** The blocks a sound file holds. */
  lemma FileShape(m: Mem, s: Shape, root: nat, f: nat)
    requires Rooted(m, s, root) && IsFile(m, f)
    ensures m.nodes[f].size <= MAX_FILE_BYTES && CeilDiv(m.nodes[f].size, BLOCK_BYTES) <= PTRS_PER_NODE
    ensures f in s.place && f != 0 && Sound(m, s, f) && f !in s.dirs
    ensures |m.nodes[f].ptrs| == PTRS_PER_NODE
    ensures forall k | 0 <= k < PTRS_PER_NODE ::
              m.nodes[f].ptrs[k] == NO_BLOCK <==> k >= CeilDiv(m.nodes[f].size, BLOCK_BYTES)
    ensures Holding(m, m, f, CeilDiv(m.nodes[f].size, BLOCK_BYTES), [], 0)
  {
    Basics(m, s, 0);
    RootedBusy(m, s, root, f);
    assert f in Live(m);
    assert f in s.dirs <==> IsDir(m, f);
    assert FileOk(m, f);
    hide Struct, Forest, Live;
    FilePtrs(m, f);
  }

  lemma FilePtrs(m: Mem, f: nat)
    requires Sized(m) && FileOk(m, f)
    ensures CeilDiv(m.nodes[f].size, BLOCK_BYTES) <= PTRS_PER_NODE
    ensures forall k | 0 <= k < PTRS_PER_NODE ::
              m.nodes[f].ptrs[k] == NO_BLOCK <==> k >= CeilDiv(m.nodes[f].size, BLOCK_BYTES)
    ensures Holding(m, m, f, CeilDiv(m.nodes[f].size, BLOCK_BYTES), [], 0)
  {
    forall k | 0 <= k < PTRS_PER_NODE
      ensures m.nodes[f].ptrs[k] == NO_BLOCK <==> k >= CeilDiv(m.nodes[f].size, BLOCK_BYTES)
    {
      assert m.nodes[f].ptrs[k] == PtrAt(m, f, k);
    }
  }

  /** Undoes the reservations, oldest first. */
  method Unreserve(s: Store, f: nat, ghost m0: Mem, have: nat, indices: seq<nat>, ids: seq<nat>)
    requires s.Ok() && s.NodeId(f) && Holding(m0, s.mem, f, have, ids, 0)
    requires |indices| == |ids| && forall i | 0 <= i < |ids| :: indices[i] == have + i
    requires s.pend <= {NodeBlock(s.geo, f)}
    modifies s.ram, s`mem, s`pend, s`dirty, s`dirtyAll, s`hint
    ensures s.Ok() && s.mem == m0 && s.pend == {}
  {
    hide Store.Ok, Holding;
    var i := 0;
    while i < |ids|
      invariant 0 <= i <= |ids|
      invariant s.Ok() && s.NodeId(f) && Holding(m0, s.mem, f, have, ids, i)
      invariant s.pend <= {NodeBlock(s.geo, f)}
    {
      ghost var m := s.mem;
      ReleaseHeld(m0, m, f, have, ids, i);
      s.PutNode(f, WithPtr(s.NodeAt(f), indices[i], NO_BLOCK));
      var freed := s.FreeBlock(ids[i]);
      assert s.mem == Shrunk(m, f, have + i);
      i := i + 1;
    }
    HoldingNone(m0, s.mem, f, have, ids);
    s.MarkNode(f);
  }

  /** The allocation loop of `zapisz_do_pliku` (psf.cpp:3206-3265): all the missing blocks, or none. */
  method Reserve(s: Store, f: nat, need: nat) returns (ok: bool, ghost s1: Shape)
    requires s.Valid() && IsFile(s.mem, f) && need <= PTRS_PER_NODE
    modifies s.ram, s`mem, s`pend, s`dirty, s`dirtyAll, s`hint
    ensures s.Ok() && f in s.shape.place
    ensures ok <==> need <= CeilDiv(old(s.mem).nodes[f].size, BLOCK_BYTES) + |FreeBlocks(old(s.mem))|
    ensures !ok ==> s.mem == old(s.mem) && s.pend == {}
    ensures ok ==>
              && s1 == s.shape.(own := s1.own) && Sound(s.mem, s1, f) && OnlyNode(old(s.mem), s.mem, f)
              && IsFile(s.mem, f) && s.pend <= {NodeBlock(s.geo, f)}
              && forall k: nat | k < need :: PtrAt(s.mem, f, k) != NO_BLOCK
  {
    hide Store.Ok, Sound, Rooted, Holding, OnlyNode, PtrAt;
    ghost var m0 := s.mem;
    s1 := s.shape;
    FileShape(m0, s.shape, s.geo.root, f);
    ghost var have := CeilDiv(m0.nodes[f].size, BLOCK_BYTES);
    var indices: seq<nat>, ids: seq<nat> := [], [];
    var first := CeilDiv(s.NodeAt(f).size, BLOCK_BYTES);
    OnlySelf(m0, f);
    var k := 0;
    while k < need
      invariant 0 <= k <= need
      invariant s.Ok() && s.NodeId(f) && s.pend <= {NodeBlock(s.geo, f)} && IsFile(s.mem, f)
      invariant s1 == s.shape.(own := s1.own) && Sound(s.mem, s1, f) && OnlyNode(m0, s.mem, f)
      invariant |indices| == |ids| && forall i | 0 <= i < |ids| :: indices[i] == have + i
      invariant Holding(m0, s.mem, f, have, ids, 0)
      invariant k <= have ==> |ids| == 0
      invariant k > have ==> |ids| == k - have
      invariant forall l: nat | l < k :: PtrAt(s.mem, f, l) != NO_BLOCK
    {
      HeldPtr(m0, s.mem, f, have, ids, k);
      if s.NodeAt(f).ptrs[k] == NO_BLOCK {
        ghost var m := s.mem;
        FreeIsBlank(m0, m, s1, f, have, ids);
        var b := s.AllocBlock();
        if b == NO_BLOCK {
          HeldCount(m0, s.mem, f, have, ids);
          Unreserve(s, f, m0, first, indices, ids);
          return false, s1;
        }
        GrowBusy(m, s1, f, k, b);
        HoldOne(m0, m, f, have, ids, b);
        s.PutNode(f, WithPtr(s.NodeAt(f), k, b));
        assert s.mem == Grown(m, f, k, b, Blank);
        OnlyNodeTwice(m0, m, s.mem, f);
        GrownPtrs(m, f, k, b);
        s1 := s1.(own := s1.own[b := Owner(f, k)]);
        indices, ids := indices + [k], ids + [b];
      }
      k := k + 1;
    }
    HeldCount(m0, s.mem, f, have, ids);
    ok := true;
  }

  lemma OnlySelf(m: Mem, f: nat)
    ensures OnlyNode(m, m, f)
  {
  }

  lemma HeldPtr(m0: Mem, m: Mem, f: nat, have: nat, ids: seq<nat>, k: nat)
    requires Holding(m0, m, f, have, ids, 0) && k < PTRS_PER_NODE
    requires forall k | 0 <= k < PTRS_PER_NODE :: m0.nodes[f].ptrs[k] == NO_BLOCK <==> k >= have
    ensures |m.nodes[f].ptrs| == PTRS_PER_NODE && m.nodes[f].ptrs[k] == PtrAt(m, f, k)
    ensures k >= have + |ids| ==> PtrAt(m, f, k) == NO_BLOCK
    ensures k < have ==> PtrAt(m, f, k) != NO_BLOCK
  {
  }

  lemma FreeIsBlank(m0: Mem, m: Mem, s: Shape, f: nat, have: nat, ids: seq<nat>)
    requires Holding(m0, m, f, have, ids, 0) && Sound(m, s, f)
    ensures Sized(m) && forall b | 0 <= b < |m.used| && !m.used[b] :: m0.blocks[b] == Blank
  {
  }

  lemma GrownPtrs(m: Mem, f: nat, k: nat, b: nat)
    requires Sized(m) && f < |m.nodes| && k < PTRS_PER_NODE && b < |m.blocks|
    ensures forall l: nat :: PtrAt(Grown(m, f, k, b, Blank), f, l) == if l == k then b else PtrAt(m, f, l)
  {
  }

  // ----- writing the bytes

  /** Bytes k*4096 .. of `data`, padded with zeros to a whole block. */
  function Chunk(data: seq<Byte>, k: nat): (c: seq<Byte>)
    ensures |c| == BLOCK_BYTES
    ensures forall y | 0 <= y < BLOCK_BYTES ::
            c[y] == if k * BLOCK_BYTES + y < |data| then data[k * BLOCK_BYTES + y] else 0
  {
    seq(BLOCK_BYTES, y requires 0 <= y => if k * BLOCK_BYTES + y < |data| then data[k * BLOCK_BYTES + y] else 0)
  }

  ghost predicate ChunksTo(m: Mem, f: nat, data: seq<Byte>, k: nat) {
    forall l: nat {:trigger PtrAt(m, f, l)} | l < k ::
      PtrAt(m, f, l) < |m.blocks| && m.blocks[PtrAt(m, f, l)] == Bytes(Chunk(data, l))
  }

  lemma ChunkWritten(m: Mem, s: Shape, f: nat, data: seq<Byte>, k: nat)
    requires Sound(m, s, f) && f in s.place && PtrAt(m, f, k) != NO_BLOCK && ChunksTo(m, f, data, k)
    ensures PtrAt(m, f, k) < |m.blocks|
    ensures var m' := WithBlock(m, PtrAt(m, f, k), Bytes(Chunk(data, k)));
            Sound(m', s, f) && OnlyNode(m, m', f) && ChunksTo(m', f, data, k + 1)
  {
    var b := PtrAt(m, f, k);
    assert b in s.own && s.own[b] == Owner(f, k);
    var m' := WithBlock(m, b, Bytes(Chunk(data, k)));
    forall i: nat, l: nat ensures PtrAt(m', i, l) == PtrAt(m, i, l) {}
    OwnedElsewhere(m, s.own, m', f, b);
    Basics(m, s, f);
    assert IsDir(m', f) <==> IsDir(m, f);
    StructFrame(m, s.own, s.dirs, f, m', s.own, f, f);
    SameLive(m, m', f);
    forall l: nat | l < k ensures PtrAt(m', f, l) < |m'.blocks| && m'.blocks[PtrAt(m', f, l)] == Bytes(Chunk(data, l)) {
      assert s.own[PtrAt(m, f, l)] == Owner(f, l);
    }
  }

  /** The copying loop of `zapisz_do_pliku` (psf.cpp:3267-3350). */
  method WriteChunks(s: Store, f: nat, data: seq<Byte>, need: nat, ghost s1: Shape)
    requires s.Ok() && Sound(s.mem, s1, f) && f in s1.place && IsFile(s.mem, f) && s.pend <= {NodeBlock(s.geo, f)}
    requires need <= PTRS_PER_NODE && forall k: nat | k < need :: PtrAt(s.mem, f, k) != NO_BLOCK
    modifies s.ram, s`mem, s`pend, s`dirty, s`dirtyAll
    ensures s.Ok() && Sound(s.mem, s1, f) && OnlyNode(old(s.mem), s.mem, f) && IsFile(s.mem, f)
    ensures s.mem.nodes == old(s.mem).nodes && s.pend <= {NodeBlock(s.geo, f)}
    ensures ChunksTo(s.mem, f, data, need)
  {
    hide Store.Ok, Sound, OnlyNode, PtrAt, ChunksTo;
    OnlySelf(s.mem, f);
    NoChunks(s.mem, f, data);
    Basics(s.mem, s1, f);
    var k := 0;
    while k < need
      invariant 0 <= k <= need
      invariant s.Ok() && Sound(s.mem, s1, f) && OnlyNode(old(s.mem), s.mem, f) && IsFile(s.mem, f) && s.NodeId(f)
      invariant s.mem.nodes == old(s.mem).nodes && s.pend <= {NodeBlock(s.geo, f)}
      invariant forall l: nat | l < need :: PtrAt(s.mem, f, l) != NO_BLOCK
      invariant ChunksTo(s.mem, f, data, k)
    {
      ghost var m := s.mem;
      ChunkWritten(m, s1, f, data, k);
      PtrIs(m, f, k);
      var b := s.NodeAt(f).ptrs[k];
      s.PutData(b, Bytes(Chunk(data, k)));
      s.MarkData(b);
      OnlyNodeTwice(old(s.mem), m, s.mem, f);
      SamePtrs(m, s.mem, f);
      k := k + 1;
    }
  }

  lemma NoChunks(m: Mem, f: nat, data: seq<Byte>)
    ensures ChunksTo(m, f, data, 0)
  {
  }

  lemma PtrIs(m: Mem, f: nat, k: nat)
    requires Sized(m) && f < |m.nodes| && k < PTRS_PER_NODE
    ensures m.nodes[f].ptrs[k] == PtrAt(m, f, k)
  {
  }

  lemma SamePtrs(m: Mem, m': Mem, f: nat)
    requires m'.nodes == m.nodes
    ensures forall k: nat :: PtrAt(m', f, k) == PtrAt(m, f, k)
  {
  }

  /** Gives back the pointers from `need` on (psf.cpp:3352-3376). */
  method ReleaseTail(s: Store, f: nat, need: nat, ghost s0: Shape, ghost data: seq<Byte>) returns (ghost s1: Shape)
    requires s.Ok() && Sound(s.mem, s0, f) && f in s0.place && IsFile(s.mem, f) && s.pend <= {NodeBlock(s.geo, f)}
    requires need <= PTRS_PER_NODE && ChunksTo(s.mem, f, data, need)
    modifies s.ram, s`mem, s`pend, s`dirty, s`dirtyAll, s`hint
    ensures s.Ok() && s.pend <= {NodeBlock(s.geo, f)}
    ensures s1 == s0.(own := s1.own) && Sound(s.mem, s1, f) && OnlyNode(old(s.mem), s.mem, f) && IsFile(s.mem, f)
    ensures ChunksTo(s.mem, f, data, need)
    ensures forall k: nat | k >= need :: PtrAt(s.mem, f, k) == NO_BLOCK
  {
    hide Store.Ok, Sound, OnlyNode, ChunksTo;
    s1 := s0;
    Basics(s.mem, s0, f);
    OnlySelf(s.mem, f);
    var k := need;
    while k < PTRS_PER_NODE
      invariant need <= k <= PTRS_PER_NODE
      invariant s.Ok() && s.pend <= {NodeBlock(s.geo, f)} && s.NodeId(f) && IsFile(s.mem, f)
      invariant s1 == s0.(own := s1.own) && Sound(s.mem, s1, f) && OnlyNode(old(s.mem), s.mem, f)
      invariant ChunksTo(s.mem, f, data, need)
      invariant forall l: nat | need <= l < k :: PtrAt(s.mem, f, l) == NO_BLOCK
    {
      ghost var m, t := s.mem, s1;
      s1 := ReleaseOne(s, f, k, s1);
      OnlyNodeTwice(old(s.mem), m, s.mem, f);
      ChunksKept(m, s.mem, t, f, k, data, need);
      k := k + 1;
    }
    NoMorePtrs(s.mem, f);
  }

  lemma ChunksKept(m: Mem, m': Mem, s: Shape, f: nat, k: nat, data: seq<Byte>, need: nat)
    requires Sound(m, s, f) && ChunksTo(m, f, data, need) && need <= k
    requires forall l: nat :: PtrAt(m', f, l) == if l == k then NO_BLOCK else PtrAt(m, f, l)
    requires OneBlockGone(m, m', f, k)
    ensures ChunksTo(m', f, data, need)
  {
    forall l: nat | l < need ensures PtrAt(m', f, l) < |m'.blocks|
        && m'.blocks[PtrAt(m', f, l)] == Bytes(Chunk(data, l)) {
      assert s.own[PtrAt(m, f, l)] == Owner(f, l);
    }
  }

  ghost predicate OneBlockGone(m: Mem, m': Mem, f: nat, k: nat) {
    && |m'.blocks| == |m.blocks|
    && forall b | 0 <= b < |m.blocks| && b != PtrAt(m, f, k) :: m'.blocks[b] == m.blocks[b]
  }

  lemma ChunkBytes(m: Mem, f: nat, data: seq<Byte>, need: nat)
    requires f < |m.nodes| && m.nodes[f].size == |data| && |data| <= need * BLOCK_BYTES && ChunksTo(m, f, data, need)
    ensures FileBytes(m, f) == data
  {
    forall y | 0 <= y < |data| ensures ByteAt(m, f, y) == data[y] {
      var k := y / BLOCK_BYTES;
      assert m.blocks[PtrAt(m, f, k)] == Bytes(Chunk(data, k));
      assert k * BLOCK_BYTES + y % BLOCK_BYTES == y;
    }
  }

  /** The written file, with its size published, is in order. */
  lemma WrittenFileOk(m: Mem, f: nat, data: seq<Byte>, need: nat)
    requires Sized(m) && IsFile(m, f) && need == CeilDiv(|data|, BLOCK_BYTES) <= PTRS_PER_NODE
    requires ChunksTo(m, f, data, need) && forall k: nat | k >= need :: PtrAt(m, f, k) == NO_BLOCK
    ensures FileOk(WithNode(m, f, m.nodes[f].(size := |data|)), f)
    ensures FileBytes(WithNode(m, f, m.nodes[f].(size := |data|)), f) == data
  {
    var m' := WithNode(m, f, m.nodes[f].(size := |data|));
    forall k: nat ensures PtrAt(m', f, k) == PtrAt(m, f, k) {}
    assert ChunksTo(m', f, data, need);
    ChunkBytes(m', f, data, need);
  }

  lemma WriteSound(m: Mem, s: Shape, f: nat, data: seq<Byte>, need: nat)
    requires Sound(m, s, f) && IsFile(m, f) && f in s.place && need == CeilDiv(|data|, BLOCK_BYTES) <= PTRS_PER_NODE
    requires ChunksTo(m, f, data, need) && forall k: nat | k >= need :: PtrAt(m, f, k) == NO_BLOCK
    ensures var m' := WithNode(m, f, m.nodes[f].(size := |data|));
            Sound(m', s, 0) && OnlyNode(m, m', f) && FileBytes(m', f) == data
  {
    var m' := WithNode(m, f, m.nodes[f].(size := |data|));
    forall i: nat, k: nat ensures PtrAt(m', i, k) == PtrAt(m, i, k) {}
    assert Owned(m', s.own);
    WrittenFileOk(m, f, data, need);
    Basics(m, s, f);
    assert IsDir(m', f) <==> IsDir(m, f);
    StructFrame(m, s.own, s.dirs, f, m', s.own, f, 0);
    SameLive(m, m', f);
  }

  lemma WriteEffect(m: Mem, s: Shape, root: nat, f: nat, m': Mem, s': Shape, data: seq<Byte>)
    requires Rooted(m, s, root) && s' == s.(own := s'.own) && Sound(m', s', 0) && OnlyNode(m, m', f)
    requires f in s.place && IsFile(m', f) && FileBytes(m', f) == data
    ensures Rooted(m', s', root)
    ensures TreeAt(m', s'.dirs, root) == TreeAt(m, s.dirs, root)[s.place[f].path := FileItem(data)]
  {
    assert ItemOf(m', f) == FileItem(data);
    IsRooted(m', s', root);
    hide *;
    SameKeys(m, m', s, root);
    OthersKept(m, m', s, root, f);
    FileInTree(m, m', s, root, f);
    OneItemChanged(TreeAt(m, s.dirs, root), TreeAt(m', s.dirs, root), s.place[f].path, FileItem(data));
  }

  lemma OneItemChanged(v: Tree, w: Tree, a: Path, i: Item)
    requires forall p: Path :: p in w <==> p in v
    requires forall p: Path :: p in v && p != a ==> w[p] == v[p]
    requires a in w && w[a] == i
    ensures w == v[a := i]
  {
  }

  lemma FileInTree(m: Mem, m': Mem, s: Shape, root: nat, f: nat)
    requires Rooted(m, s, root) && f in s.place
    ensures s.place[f].path in TreeAt(m', s.dirs, root)
    ensures TreeAt(m', s.dirs, root)[s.place[f].path] == ItemOf(m', f)
  {
    RootOf(m, s, 0, f);
    Basics(m, s, 0);
    WalkAt(GraphOf(s.dirs), s.roots, s.place, root, s.place[f].path);
  }

  // ----- the calls

  ghost predicate CanWrite(s: Store, path: CString, data: seq<Byte>)
    reads s`mem, s`shape, s`geo
  {
    && FileThere(s.Contents(), path)
    && |data| <= 490 * 4096
    && (|data| + 4095) / 4096 <= (|s.Contents()[PathOf(path)].bytes| + 4095) / 4096 + |FreeBlocks(s.mem)|
  }

  lemma WriteConditions(s: Store, path: CString)
    requires s.Valid()
    ensures var f := Lookup(s, path);
            && (f != 0 ==> s.NodeId(f) && f in s.shape.place && s.shape.place[f].path == PathOf(path))
            && (FileThere(s.Contents(), path) <==> f != 0 && IsFile(s.mem, f))
            && (f != 0 && IsFile(s.mem, f) ==>
                  && s.Contents()[PathOf(path)] == FileItem(FileBytes(s.mem, f))
                  && |s.Contents()[PathOf(path)].bytes| == s.mem.nodes[f].size && PtrsSane(s.mem, f))
  {
    hide Store.Ok, FileBytes;
    LookupFacts(s.mem, s.shape, s.geo.root, PathOf(path));
    var f := Lookup(s, path);
    if f != 0 && IsFile(s.mem, f) { SizeOfBytes(s.mem, f); }
    OwnedPtrsSane(s.mem, s.shape.own, f);
    hide Rooted;
  }

  lemma SizeOfBytes(m: Mem, f: nat)
    requires f < |m.nodes|
    ensures |FileBytes(m, f)| == m.nodes[f].size
  {
  }

  /** `zapisz_do_pliku` (psf.cpp:3137-3386). `written` says whether the file was changed; the result is
      that of the write-through, which fails whenever writing to the medium is off. */
  method Write(s: Store, path: CString, data: seq<Byte>) returns (ok: bool, ghost written: bool)
    requires s.ready ==> s.Valid()
    modifies s.ram, s.disk, s`mem, s`shape, s`pend, s`dirty, s`dirtyAll, s`hint, s`lastFlushOk, s`transfers
    ensures s.ready ==> s.Valid()
    ensures written <==> s.ready && old(CanWrite(s, path, data))
    ensures written ==> s.Contents() == old(s.Contents())[PathOf(path) := FileItem(data)]
    ensures !written ==> s.mem == old(s.mem) && s.shape == old(s.shape) && s.disk[..] == old(s.disk[..])
    ensures ok ==> written && s.disk[..s.geo.blocks] == s.ram[..s.geo.blocks]
    ensures ok <==> written && s.attached && s.writable && s.Served(old(s.transfers))
    ensures written ==> s.Through(old(s.transfers))
  {
    hide Store.Ok, Store.Contents, Store.Through, Store.Served, Rooted, Lookup, TreeAt, PathOf, CanonicalPath;
    hide FileBytes, FileThere, PtrsSane, FreeBlocks;
    ok, written := false, false;
    if !s.ready { return; }
    WriteConditions(s, path);
    var f, _ := Resolve(s, path, false);
    if f == 0 { return; }
    var sane := CheckPtrs(s, f);
    if !sane || |data| > MAX_FILE_BYTES { return; }
    ok, written := WriteFile(s, f, data);
  }

  /** With its blocks reserved the file takes the data, gives back what it no longer needs, and takes its new size. */
  method Fill(s: Store, f: nat, data: seq<Byte>, need: nat, ghost m0: Mem, ghost s0: Shape) returns (ghost s1: Shape)
    requires s.Ok() && Sound(s.mem, s0, f) && f in s0.place && OnlyNode(m0, s.mem, f) && IsFile(s.mem, f)
    requires s.pend <= {NodeBlock(s.geo, f)} && need == CeilDiv(|data|, BLOCK_BYTES) <= PTRS_PER_NODE
    requires forall k: nat | k < need :: PtrAt(s.mem, f, k) != NO_BLOCK
    modifies s.ram, s`mem, s`pend, s`dirty, s`dirtyAll, s`hint
    ensures s.Ok() && s.pend == {} && OnlyNode(m0, s.mem, f) && IsFile(s.mem, f)
    ensures s1 == s0.(own := s1.own) && Sound(s.mem, s1, 0) && FileBytes(s.mem, f) == data
  {
    hide Store.Ok, Rooted, Sound, TreeAt, FreeBlocks, OnlyNode, PtrAt, ChunksTo, FileBytes;
    ghost var m1 := s.mem;
    WriteChunks(s, f, data, need, s0);
    ghost var m2 := s.mem;
    OnlyNodeTwice(m0, m1, m2, f);
    s1 := ReleaseTail(s, f, need, s0, data);
    ghost var m3 := s.mem;
    OnlyNodeTwice(m0, m2, m3, f);
    WriteSound(m3, s1, f, data, need);
    s.PutNode(f, s.NodeAt(f).(size := |data|));
    s.MarkNode(f);
    OnlyNodeTwice(m0, m3, s.mem, f);
  }

  method WriteFile(s: Store, f: nat, data: seq<Byte>) returns (ok: bool, ghost written: bool)
    requires s.Valid() && IsFile(s.mem, f) && f in s.shape.place && |data| <= MAX_FILE_BYTES
    modifies s.ram, s.disk, s`mem, s`shape, s`pend, s`dirty, s`dirtyAll, s`hint, s`lastFlushOk, s`transfers
    ensures s.Valid()
    ensures written <==>
              CeilDiv(|data|, BLOCK_BYTES) <= CeilDiv(old(s.mem).nodes[f].size, BLOCK_BYTES) + |FreeBlocks(old(s.mem))|
    ensures written ==> s.Contents() == old(s.Contents())[old(s.shape.place[f].path) := FileItem(data)]
    ensures !written ==> s.mem == old(s.mem) && s.shape == old(s.shape) && s.disk[..] == old(s.disk[..])
    ensures ok ==> written && s.disk[..s.geo.blocks] == s.ram[..s.geo.blocks]
    ensures ok <==> written && s.attached && s.writable && s.Served(old(s.transfers))
    ensures written ==> s.Through(old(s.transfers))
  {
    hide Store.Ok, Store.Contents, Store.Through, Store.Served, Rooted, Sound, TreeAt;
    hide FreeBlocks, OnlyNode, PtrAt, ChunksTo, FileBytes;
    TwoArrays(s);
    ghost var root, m0, s0 := s.geo.root, s.mem, s.shape;
    var need := CeilDiv(|data|, BLOCK_BYTES);
    ghost var s1: Shape;
    var reserved: bool;
    reserved, s1 := Reserve(s, f, need);
    written := reserved;
    if !reserved { return false, false; }
    s1 := Fill(s, f, data, need, m0, s1);
    WriteEffect(m0, s0, root, f, s.mem, s1, data);
    s.shape := s1;
    ok := s.Flush();
  }

  // ----- reading

  /** `kopiuj_pamiec` of the first `n` bytes of a block. */
  method CopyBytes(block: seq<Byte>, n: nat, buffer: array<Byte>, at: nat)
    requires n <= |block| && at + n <= buffer.Length
    modifies buffer
    ensures forall i | 0 <= i < n :: buffer[at + i] == block[i]
    ensures forall i | 0 <= i < buffer.Length && !(at <= i < at + n) :: buffer[i] == old(buffer[i])
  {
    var i := 0;
    while i < n
      invariant 0 <= i <= n
      invariant forall j | 0 <= j < i :: buffer[at + j] == block[j]
      invariant forall j | 0 <= j < buffer.Length && !(at <= j < at + i) :: buffer[j] == old(buffer[j])
    {
      buffer[at + i] := block[i];
      i := i + 1;
    }
  }

  /** The copying loop shared by the two readers (psf.cpp:3445-3493, 3558-3606). */
  method CopyOut(s: Store, f: nat, n: nat, buffer: array<Byte>)
    requires s.Valid() && IsFile(s.mem, f) && n <= s.mem.nodes[f].size && n <= buffer.Length
    modifies buffer
    ensures buffer[..n] == FileBytes(s.mem, f)[..n]
    ensures forall i | n <= i < buffer.Length :: buffer[i] == old(buffer[i])
  {
    hide Store.Ok, Rooted, FileBytes;
    ghost var bytes := FileBytes(s.mem, f);
    SizeOfBytes(s.mem, f);
    var done := 0;
    var k := 0;
    while done < n
      invariant 0 <= done <= n
      invariant done == Min(n, k * BLOCK_BYTES)
      invariant forall i | 0 <= i < done :: buffer[i] == bytes[i]
      invariant forall i | done <= i < buffer.Length :: buffer[i] == old(buffer[i])
      decreases n - done
    {
      BlockOfFile(s.mem, s.shape, s.geo.root, f, k);
      var block := BytesOf(s.DataAt(s.NodeAt(f).ptrs[k]));
      var part := Min(n - done, BLOCK_BYTES);
      CopyBytes(block, part, buffer, done);
      forall i | done <= i < done + part ensures buffer[i] == bytes[i] {
        assert buffer[done + (i - done)] == block[i - done];
        assert bytes[k * BLOCK_BYTES + (i - done)] == block[i - done];
      }
      done := done + part;
      k := k + 1;
    }
  }

  /** The blocks of a sound file hold its bytes, 4096 to a block. */
  lemma BlockOfFile(m: Mem, s: Shape, root: nat, f: nat, k: nat)
    requires Rooted(m, s, root) && IsFile(m, f) && k * BLOCK_BYTES < m.nodes[f].size
    ensures f != 0 && |m.nodes[f].ptrs| == PTRS_PER_NODE
    ensures k < PTRS_PER_NODE && m.nodes[f].ptrs[k] < |m.blocks|
            && |BytesOf(m.blocks[m.nodes[f].ptrs[k]])| == BLOCK_BYTES
    ensures forall i: nat | i < BLOCK_BYTES && k * BLOCK_BYTES + i < m.nodes[f].size ::
              FileBytes(m, f)[k * BLOCK_BYTES + i] == BytesOf(m.blocks[m.nodes[f].ptrs[k]])[i]
  {
    FileShape(m, s, root, f);
    OwnedPtrsValid(m, s.own, f);
    assert Sized(m);
    hide Rooted, Holding, FileBytes;
    BlockFacts(m, f, k);
  }

  lemma BlockFacts(m: Mem, f: nat, k: nat)
    requires Sized(m) && f < |m.nodes| && PtrsValid(m, f) && k * BLOCK_BYTES < m.nodes[f].size <= MAX_FILE_BYTES
    requires k < PTRS_PER_NODE ==> m.nodes[f].ptrs[k] != NO_BLOCK
    ensures k < PTRS_PER_NODE && m.nodes[f].ptrs[k] < |m.blocks|
            && |BytesOf(m.blocks[m.nodes[f].ptrs[k]])| == BLOCK_BYTES
    ensures forall i: nat | i < BLOCK_BYTES && k * BLOCK_BYTES + i < m.nodes[f].size ::
              FileBytes(m, f)[k * BLOCK_BYTES + i] == BytesOf(m.blocks[m.nodes[f].ptrs[k]])[i]
  {
    assert m.nodes[f].ptrs[k] == PtrAt(m, f, k);
    forall i: nat | i < BLOCK_BYTES && k * BLOCK_BYTES + i < m.nodes[f].size
      ensures FileBytes(m, f)[k * BLOCK_BYTES + i] == BytesOf(m.blocks[m.nodes[f].ptrs[k]])[i]
    {
      var y := k * BLOCK_BYTES + i;
      assert y / BLOCK_BYTES == k && y % BLOCK_BYTES == i;
      assert FileBytes(m, f)[y] == ByteAt(m, f, y);
    }
  }

  /** `czytaj_z_pliku` (psf.cpp:3392-3497). */
  method Read(s: Store, path: CString, buffer: array<Byte>, limit: nat) returns (ok: bool)
    requires s.ready ==> s.Valid()
    requires limit <= buffer.Length
    modifies buffer
    ensures ok <==> s.ready && FileThere(s.Contents(), path)
    ensures ok ==>
              var bytes := s.Contents()[PathOf(path)].bytes;
              var n := if |bytes| < limit then |bytes| else limit;
              && buffer[..n] == bytes[..n]
              && forall i | n <= i < buffer.Length :: buffer[i] == old(buffer[i])
    ensures !ok ==> buffer[..] == old(buffer[..])
  {
    hide Store.Ok, Store.Contents, Rooted, Lookup, TreeAt, PathOf, FileBytes, FileThere, PtrsSane;
    if !s.ready { return false; }
    WriteConditions(s, path);
    var f, _ := Resolve(s, path, false);
    if f == 0 { return false; }
    var sane := CheckPtrs(s, f);
    if !sane { return false; }
    var n := Min(s.NodeAt(f).size, limit);
    CopyOut(s, f, n, buffer);
    ok := true;
  }

  /** `bsp_wczytaj_plik_do_pamieci` (psf.cpp:3503-3623): the whole file, or nothing, into the exchange buffer. */
  method LoadFile(s: Store, path: CString, exchange: array<Byte>) returns (ok: bool, size: nat)
    requires s.ready ==> s.Valid()
    requires exchange.Length == LOADER_LIMIT
    modifies exchange
    ensures ok <==> s.ready && FileThere(s.Contents(), path) && 0 < |s.Contents()[PathOf(path)].bytes| <= 0x8_0000
    ensures ok ==> size == |s.Contents()[PathOf(path)].bytes| && exchange[..size] == s.Contents()[PathOf(path)].bytes
    ensures !ok ==> size == 0
  {
    hide Store.Ok, Store.Contents, Rooted, Lookup, TreeAt, PathOf, FileBytes, FileThere, PtrsSane;
    ok, size := false, 0;
    if !s.ready { return; }
    WriteConditions(s, path);
    var f, _ := Resolve(s, path, false);
    if f == 0 { return; }
    var sane := CheckPtrs(s, f);
    if !sane { return; }
    var length := s.NodeAt(f).size;
    if length == 0 || length > LOADER_LIMIT { return; }
    CopyOut(s, f, length, exchange);
    ok, size := true, length;
  }

  // ----- where it all is on the RAM disk

  lemma NodeRaw(s: Store, i: nat)
    requires s.Ok() && 0 < i < |s.mem.nodes|
    ensures s.geo.nodeStart + i - 1 < s.geo.dataStart <= s.ram.Length
    ensures s.ram[s.geo.nodeStart + i - 1] == Inode(s.mem.nodes[i])
  {
    assert s.ram[..][NodeBlock(s.geo, i)] == Inode(s.mem.nodes[i]);
  }

  lemma DataRaw(s: Store, b: nat)
    requires s.Ok() && b < |s.mem.blocks|
    ensures s.geo.dataStart + b < s.ram.Length && s.ram[s.geo.dataStart + b] == s.mem.blocks[b]
    ensures var w := s.ram[1 + b / 32768]; w.Bits? && b % 32768 < |w.bits| && w.bits[b % 32768] == s.mem.used[b]
  {
    assert s.ram[..][DataBlock(s.geo, b)] == s.mem.blocks[b];
    assert s.ram[..][BitBlock(b)].bits[b % BITS_PER_BLOCK] == s.mem.used[b];
  }

  /** Byte `y` of a file is byte y % 4096 of the data block its node's pointer y / 4096 leads to, whose bit is set. */
  lemma FileOnDisk(s: Store, p: Path, y: nat) returns (w: Node, b: nat)
    requires s.Valid() && p in s.Contents() && s.Contents()[p].FileItem? && y < |s.Contents()[p].bytes|
    ensures var f := Walk(GraphOf(s.shape.dirs), s.geo.root, p);
            && 0 < f && s.geo.nodeStart + f - 1 < s.geo.dataStart <= s.ram.Length
            && s.ram[s.geo.nodeStart + f - 1] == Inode(w)
    ensures w.kind == File && w.size == |s.Contents()[p].bytes| && y / 4096 < |w.ptrs| && w.ptrs[y / 4096] == b
    ensures s.geo.dataStart + b < s.ram.Length
    ensures var c := s.ram[s.geo.dataStart + b];
            c.Bytes? && y % 4096 < |c.bytes| && c.bytes[y % 4096] == s.Contents()[p].bytes[y]
    ensures var c := s.ram[1 + b / 32768]; c.Bits? && b % 32768 < |c.bits| && c.bits[b % 32768]
  {
    hide Store.Ok, Store.Contents, Rooted, TreeAt, Walk;
    LookupFacts(s.mem, s.shape, s.geo.root, p);
    var f := Walk(GraphOf(s.shape.dirs), s.geo.root, p);
    w := s.mem.nodes[f];
    NodeRaw(s, f);
    FileByte(s.mem, s.shape, s.geo.root, f, y);
    b := w.ptrs[y / 4096];
    DataRaw(s, b);
  }

  lemma FileByte(m: Mem, s: Shape, root: nat, f: nat, y: nat)
    requires Rooted(m, s, root) && IsFile(m, f) && y < m.nodes[f].size
    ensures y / 4096 < |m.nodes[f].ptrs| && m.nodes[f].ptrs[y / 4096] < |m.blocks| && m.used[m.nodes[f].ptrs[y / 4096]]
    ensures var c := m.blocks[m.nodes[f].ptrs[y / 4096]];
            c.Bytes? && y % 4096 < |c.bytes| && c.bytes[y % 4096] == FileBytes(m, f)[y]
  {
    assert FileOk(m, f);
    var k := y / 4096;
    assert k * 4096 <= y;
    assert PtrAt(m, f, k) != NO_BLOCK;
    assert PtrAt(m, f, k) in s.own;
    assert FileBytes(m, f)[y] == ByteAt(m, f, y);
  }

  /** An object's name stands, with its node's number, in one of the 64 slots of a data block of its folder. */
  lemma EntryOnDisk(s: Store, p: Path) returns (w: Node, k: nat, j: nat)
    requires s.Valid() && p in s.Contents() && p != []
    ensures var d := Walk(GraphOf(s.shape.dirs), s.geo.root, Front(p));
            && 0 < d && s.geo.nodeStart + d - 1 < s.geo.dataStart <= s.ram.Length
            && s.ram[s.geo.nodeStart + d - 1] == Inode(w)
    ensures w.kind == Dir && k < 490 && k < |w.ptrs| && s.geo.dataStart + w.ptrs[k] < s.ram.Length
    ensures var c := s.ram[s.geo.dataStart + w.ptrs[k]];
            c.Entries? && j < 64 && j < |c.entries|
            && c.entries[j] == Entry(Walk(GraphOf(s.shape.dirs), s.geo.root, p), Last(p))
  {
    hide Store.Ok, Store.Contents, Rooted, TreeAt, Walk, ValidName;
    ParentFacts(s.mem, s.shape, s.geo.root, p);
    var d := Walk(GraphOf(s.shape.dirs), s.geo.root, Front(p));
    k, j := EntryPlace(s.mem, s.shape, s.geo.root, d, Last(p));
    w := s.mem.nodes[d];
    NodeRaw(s, d);
    DataRaw(s, w.ptrs[k]);
    LookupFacts(s.mem, s.shape, s.geo.root, p);
  }

  lemma EntryPlace(m: Mem, s: Shape, root: nat, d: nat, n: Name) returns (k: nat, j: nat)
    requires Rooted(m, s, root) && d in s.dirs && n in s.dirs[d]
    ensures 0 < d < |m.nodes| && m.nodes[d].kind == Dir && k < 490 && k < |m.nodes[d].ptrs| && j < 64
    ensures m.nodes[d].ptrs[k] < |m.blocks|
    ensures s.dirs[d][n].id != 0 ==>
              && m.blocks[m.nodes[d].ptrs[k]].Entries? && j < |m.blocks[m.nodes[d].ptrs[k]].entries|
              && m.blocks[m.nodes[d].ptrs[k]].entries[j] == Entry(s.dirs[d][n].id, n)
  {
    Basics(m, s, 0);
    assert d in s.dirs <==> IsDir(m, d);
    assert DirOk(m, d, s.dirs[d]);
    k, j := s.dirs[d][n].k, s.dirs[d][n].j;
    assert EntryAt(m, d, k, j) == Entry(s.dirs[d][n].id, n);
  }
}
