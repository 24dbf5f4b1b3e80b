// A new file system (psf.cpp:2381-2577): its layout, and that it starts as an empty root directory.
module BspFormat {
  import opened BspTypes
  import opened BspPaths
  import opened BspForest
  import opened BspState
  import opened BspStore
  import opened BspTree
  import opened BspEffects

  /** The layout for a RAM disk of `n` blocks: one bit per block, a quarter of the rest for nodes. */
  function Layout(n: nat): Geometry {
    var nodeStart := 1 + CeilDiv(CeilDiv(n, 8), BLOCK_BYTES);
    var rest := if n < nodeStart then 0 else n - nodeStart;
    Geometry(n * BLOCK_BYTES, n, 1, nodeStart, nodeStart + (if rest / 4 == 0 then 1 else rest / 4))
  }

  /** `wylicz_geometrie` (psf.cpp:1951-2078), for a RAM disk of `n` whole blocks. */
  ghost predicate GeometryOk(geo: Geometry, n: nat) {
    && 10 * 4096 <= geo.total <= n * 4096
    && geo.total % 4096 == 0 && geo.blocks == geo.total / 4096
    && 1 < geo.nodeStart < geo.dataStart < geo.blocks
    && geo.blocks - geo.dataStart <= (geo.nodeStart - 1) * 32768
    && 0 < geo.root <= geo.dataStart - geo.nodeStart
  }

  /** The counts of nodes and data blocks are those the rest of the file system works with. */
  method CheckGeometry(geo: Geometry, n: nat) returns (ok: bool, nodes: nat, blocks: nat)
    requires n <= MAX_RAM_BLOCKS
    ensures ok <==> GeometryOk(geo, n)
    ensures ok ==> nodes == geo.dataStart - geo.nodeStart && blocks == geo.blocks - geo.dataStart
  {
    ok, nodes, blocks := false, 0, 0;
    if geo.total < BLOCK_BYTES * MIN_BLOCKS || geo.total > n * BLOCK_BYTES { return; }
    if geo.total % BLOCK_BYTES != 0 || geo.total % 512 != 0 { return; }
    if geo.blocks != geo.total / BLOCK_BYTES || geo.blocks < MIN_BLOCKS { return; }
    if geo.nodeStart <= 1 || geo.nodeStart >= geo.dataStart || geo.dataStart >= geo.blocks { return; }
    var bits := (geo.nodeStart - 1) * BLOCK_BYTES * 8;
    assert bits < 0x1_0000_0000_0000_0000;
    if geo.blocks - geo.dataStart > bits { return; }
    var count := geo.dataStart - geo.nodeStart;
    if geo.root == 0 || geo.root > count { return; }
    ok, nodes, blocks := true, count, geo.blocks - geo.dataStart;
  }

  lemma GeometryFits(geo: Geometry, n: nat)
    requires n <= MAX_RAM_BLOCKS
    ensures GeometryOk(geo, n) <==> Fits(geo, n) && geo.root != 0
  {
  }

  /** Whatever the formatter lays out, the mount check accepts; the bitmap is the smallest with a bit for every block,
      and the nodes are a quarter of what is left, at least one. */
  lemma LayoutAccepted(n: nat)
    requires 10 <= n <= MAX_RAM_BLOCKS
    ensures GeometryOk(Layout(n), n)
    ensures var g := Layout(n);
            && (g.nodeStart - 2) * 32768 < n <= (g.nodeStart - 1) * 32768
            && var nodes, rest := g.dataStart - g.nodeStart, n - g.nodeStart;
               nodes == 1 > rest / 4 || 4 * nodes <= rest < 4 * nodes + 4
  {
    var bytes := CeilDiv(n, 8);
    var words := CeilDiv(bytes, BLOCK_BYTES);
    assert n <= bytes * 8;
    assert bytes <= words * BLOCK_BYTES;
    assert bytes <= n / 8 + 1 && words <= bytes / BLOCK_BYTES + 1;
    assert words <= n / 16 + 1;
    var rest := n - (1 + words);
    assert rest / 4 < rest;
  }

  lemma LayoutParts(n: nat)
    requires MIN_BLOCKS <= n <= MAX_RAM_BLOCKS
    ensures Fits(Layout(n).(root := 0), n) && Layout(n).nodeStart < Layout(n).dataStart < Layout(n).blocks == n
    ensures 0 < CeilDiv(CeilDiv(n, 8), BLOCK_BYTES) <= n - 3
  {
    LayoutAccepted(n);
    var bytes := CeilDiv(n, 8);
    var words := CeilDiv(bytes, BLOCK_BYTES);
    assert bytes <= n / 8 + 1 && words <= bytes / BLOCK_BYTES + 1;
  }

  lemma LayoutIs(n: nat, nodeStart: nat, dataStart: nat)
    requires nodeStart == 1 + CeilDiv(CeilDiv(n, 8), BLOCK_BYTES) < n
    requires dataStart == nodeStart + (if (n - nodeStart) / 4 == 0 then 1 else (n - nodeStart) / 4)
    ensures Layout(n) == Geometry(n * BLOCK_BYTES, n, 1, nodeStart, dataStart)
  {
    hide CeilDiv;
  }

  /** A freshly formatted memory: node 1 is the empty root, all else is free. */
  function FreshMem(nodes: nat, blocks: nat): Mem {
    Mem(seq(nodes + 1, _ => FREE_NODE), seq(blocks, _ => false), seq(blocks, _ => Blank))
  }

  const EMPTY_SHAPE := Shape(map[], map[], {}, map[])

  lemma FreshSound(nodes: nat, blocks: nat)
    requires blocks < NO_BLOCK
    ensures Sound(FreshMem(nodes, blocks), EMPTY_SHAPE, 0)
  {
    var m := FreshMem(nodes, blocks);
    forall i: nat, k: nat ensures PtrAt(m, i, k) == NO_BLOCK {}
  }

  /** With a directory for node 1, that is an empty file system. */
  lemma FreshRooted(nodes: nat, blocks: nat)
    requires blocks < NO_BLOCK && nodes > 0
    ensures var m, s := WithNode(FreshMem(nodes, blocks), 1, ClearNode(Dir)), NewRootShape(EMPTY_SHAPE, 1, Dir);
            Rooted(m, s, 1) && TreeAt(m, s.dirs, 1) == Leaf(DirItem)
    ensures |FreshMem(nodes, blocks).nodes| == nodes + 1
    ensures forall i | 0 <= i <= nodes :: FreshMem(nodes, blocks).nodes[i].kind == Free
  {
    var m0, m, s := FreshMem(nodes, blocks), WithNode(FreshMem(nodes, blocks), 1, ClearNode(Dir)),
        NewRootShape(EMPTY_SHAPE, 1, Dir);
    hide Sound, TreeAt;
    FreshSound(nodes, blocks);
    NewRootSound(m0, EMPTY_SHAPE, 0, 1, Dir);
    LoneDirTree(m, s.dirs, 1);
    assert s.roots == {1} && 1 in s.dirs;
  }

  lemma LoneDirTree(m: Mem, dirs: Dirs, x: nat)
    requires dirs == map[x := map[]] && 0 < x < |m.nodes| && m.nodes[x] == ClearNode(Dir)
    ensures TreeAt(m, dirs, x) == Leaf(DirItem)
  {
    assert GraphOf(dirs)[x] == map[];
    hide TreeAt;
    forall p: Path | p != [] ensures Walk(GraphOf(dirs), x, p) == 0 { NoSteps(GraphOf(dirs), x, p); }
    hide Walk;
    FreshTree(m, dirs, x, Dir);
  }

  lemma {:induction false} NoSteps(g: Graph, r: nat, p: Path)
    requires p != [] && forall d <- g :: g[d] == map[]
    ensures Walk(g, r, p) == 0
  {
  }

  // ----- the formatter

  /** The blank image: cleared bitmap blocks, free nodes, blank data. */
  ghost predicate Formatted(image: seq<Block>, geo: Geometry) {
    && geo.nodeStart <= geo.dataStart <= geo.blocks <= |image|
    && (forall c {:trigger image[c]} | 1 <= c < geo.nodeStart :: image[c] == Bits(seq(BITS_PER_BLOCK, _ => false)))
    && (forall c {:trigger image[c]} | geo.nodeStart <= c < geo.dataStart :: image[c] == Inode(FREE_NODE))
    && (forall c {:trigger image[c]} | geo.dataStart <= c < geo.blocks :: image[c] == Blank)
  }

  lemma FormattedHolds(image: seq<Block>, geo: Geometry)
    requires Fits(geo, |image|) && image[0] == Super(geo) && Formatted(image, geo)
    ensures Holds(image, geo, FreshMem(geo.dataStart - geo.nodeStart, geo.blocks - geo.dataStart))
    ensures Sized(FreshMem(geo.dataStart - geo.nodeStart, geo.blocks - geo.dataStart))
  {
  }

  /** Zeroes the area (a zeroed bitmap block has every bit clear) and clears every node. */
  method ClearAll(ram: array<Block>, geo: Geometry)
    requires 1 < geo.nodeStart < geo.dataStart < geo.blocks <= ram.Length
    modifies ram
    ensures Formatted(ram[..], geo)
  {
    var clear := Bits(seq(BITS_PER_BLOCK, _ => false));
    var free := Inode(FREE_NODE);
    var i := 0;
    while i < geo.blocks
      invariant 0 <= i <= geo.blocks
      invariant forall c | 1 <= c < geo.nodeStart && c < i :: ram[c] == clear
      invariant forall c | geo.nodeStart <= c < i :: ram[c] == Blank
    {
      ram[i] := if 1 <= i < geo.nodeStart then clear else Blank;
      i := i + 1;
    }
    var id := 1;
    while id <= geo.dataStart - geo.nodeStart
      invariant 1 <= id <= geo.dataStart - geo.nodeStart + 1
      invariant forall c | 1 <= c < geo.nodeStart :: ram[c] == clear
      invariant forall c | geo.nodeStart <= c < geo.nodeStart + id - 1 :: ram[c] == free
      invariant forall c | geo.dataStart <= c < geo.blocks :: ram[c] == Blank
    {
      ram[geo.nodeStart + id - 1] := free;
      id := id + 1;
    }
  }

  /** Writes the root's id into the superblock. */
  method SetRoot(s: Store, root: nat)
    requires s.Ok() && s.NodeId(root)
    modifies s.ram, s`geo, s`pend
    ensures s.Ok() && s.geo == old(s.geo).(root := root)
    ensures s.pend == old(s.pend) + {0}
  {
    ghost var image := s.ram[..];
    s.geo := s.geo.(root := root);
    s.ram[0] := Super(s.geo);
    s.pend := s.pend + {0};
    assert s.ram[..] == image[0 := Super(s.geo)];
    RootSet(image, old(s.geo), root, s.mem);
  }

  lemma RootSet(image: seq<Block>, geo: Geometry, root: nat, m: Mem)
    requires Holds(image, geo, m) && 0 < root <= geo.dataStart - geo.nodeStart
    ensures Holds(image[0 := Super(geo.(root := root))], geo.(root := root), m)
  {
    var geo' := geo.(root := root);
    var image' := image[0 := Super(geo')];
    forall b: nat {:trigger BitBlock(b)} | b < |m.used| ensures image'[BitBlock(b)].bits[b % BITS_PER_BLOCK]
        == m.used[b] {
      assert image[BitBlock(b)].bits[b % BITS_PER_BLOCK] == m.used[b];
    }
    forall i: nat {:trigger NodeBlock(geo', i)} | 0 < i < |m.nodes| ensures image'[NodeBlock(geo', i)]
        == Inode(m.nodes[i]) {
      assert image[NodeBlock(geo, i)] == Inode(m.nodes[i]);
    }
    forall b: nat {:trigger DataBlock(geo', b)} | b < |m.blocks| ensures image'[DataBlock(geo', b)] == m.blocks[b] {
      assert image[DataBlock(geo, b)] == m.blocks[b];
    }
  }

  lemma NowOk(s: Store)
    requires s.ready && Holds(s.ram[..], s.geo, s.mem) && Sized(s.mem)
    requires s.ram != s.disk && s.ram.Length == s.disk.Length && s.dirty == []
    requires s.dirtyAll || forall i: nat | i < s.geo.blocks :: i in s.pend
    ensures s.Ok()
  {
  }

  lemma OkHolds(s: Store)
    requires s.Ok()
    ensures s.ready && Holds(s.ram[..], s.geo, s.mem) && Sized(s.mem) && s.geo.blocks <= s.ram.Length
    ensures s.ram != s.disk && s.ram.Length == s.disk.Length
  {
  }

  /** The size and layout computation of the formatter (psf.cpp:2390-2470); the root is not known yet. */
  method PlanLayout(n: nat) returns (ok: bool, geo: Geometry)
    requires n <= MAX_RAM_BLOCKS
    ensures ok <==> n >= 10
    ensures ok ==>
              && geo == Layout(n).(root := 0) && Fits(geo, n)
              && geo.nodeStart < geo.dataStart < geo.blocks == n < NO_BLOCK
              && Layout(n).root == 1
  {
    hide CeilDiv, Fits, Layout;
    ok, geo := false, Geometry(0, 0, 0, 0, 0);
    if n < MIN_BLOCKS { return; }
    LayoutParts(n);
    var words := CeilDiv(CeilDiv(n, 8), BLOCK_BYTES);
    if words == 0 || 1 + words >= n { return; }
    var nodeStart := 1 + words;
    var rest := n - nodeStart;
    if rest < 2 { return; }
    var nodeBlocks := if rest / 4 == 0 then 1 else rest / 4;
    if nodeBlocks >= rest { return; }
    var dataStart := nodeStart + nodeBlocks;
    LayoutIs(n, nodeStart, dataStart);
    ok, geo := true, Geometry(n * BLOCK_BYTES, n, 0, nodeStart, dataStart);
  }

  /** The empty layout: superblock, bitmap and nodes, with no root yet. */
  method LayOut(s: Store, geo: Geometry)
    requires s.ram != s.disk && s.ram.Length == s.disk.Length && s.dirty == [] && Fits(geo, s.ram.Length)
    modifies s.ram, s`geo, s`ready, s`mem, s`pend
    ensures s.Ok() && s.geo == geo && s.mem == FreshMem(geo.dataStart - geo.nodeStart, geo.blocks - geo.dataStart)
  {
    hide Store.Ok, Holds, Sized;
    s.geo := geo;
    ClearAll(s.ram, geo);
    ghost var image := s.ram[..];
    s.ram[0] := Super(geo);
    assert s.ram[..] == image[0 := Super(geo)];
    FormattedHolds(s.ram[..], geo);
    s.mem := FreshMem(geo.dataStart - geo.nodeStart, geo.blocks - geo.dataStart);
    s.ready := true;
    s.pend := Below(geo.blocks);
    NowOk(s);
  }

  /** The root directory is the first node to be taken. */
  method PlaceRoot(s: Store, ghost nodes: nat, ghost blocks: nat) returns (root: nat)
    requires s.Ok() && s.mem == FreshMem(nodes, blocks) && blocks < NO_BLOCK && nodes > 0
    modifies s.ram, s`geo, s`mem, s`pend, s`dirty, s`dirtyAll
    ensures s.Ok() && root == 1 && s.geo == old(s.geo).(root := 1)
    ensures s.mem == WithNode(FreshMem(nodes, blocks), 1, ClearNode(Dir))
  {
    hide Store.Ok, Rooted, TreeAt, FreshMem, ClearNode;
    FreshRooted(nodes, blocks);
    assert s.mem.nodes[1].kind == Free;
    root := s.AllocNode(Dir);
    SetRoot(s, root);
  }

  /** Everything is marked, and written out when the medium may be written. */
  method Publish(s: Store, allow: bool, ghost nodes: nat, ghost blocks: nat)
    requires s.Ok() && s.geo.root == 1
    requires nodes > 0 && blocks < NO_BLOCK && s.mem == WithNode(FreshMem(nodes, blocks), 1, ClearNode(Dir))
    modifies s`hint, s`dirty, s`dirtyAll, s`pend, s`shape, s`writable, s`lastFlushOk, s`transfers, s.disk
    ensures s.writable <==> allow && s.attached
    ensures !s.writable ==> s.disk[..] == old(s.disk[..])
    ensures s.geo.blocks == s.ram.Length && s.writable && s.lastFlushOk ==> s.disk[..] == s.ram[..]
    ensures if s.writable then s.lastFlushOk <==> s.Served(old(s.transfers)) else s.transfers == old(s.transfers)
    ensures s.Valid()
    ensures s.Contents() == Leaf(DirItem)
  {
    hide Store.Ok, Rooted, Holds, Sized, TreeAt, FreshMem, ClearNode;
    FreshRooted(nodes, blocks);
    OkHolds(s);
    s.hint := 0;
    s.dirtyAll, s.dirty := true, [];
    s.pend := {};
    s.shape := NewRootShape(EMPTY_SHAPE, 1, Dir);
    s.writable := allow && s.attached;
    NowOk(s);
    if s.writable { var flushed := s.Flush(); }
  }

  /** `sformatuj_ram_dysk` (psf.cpp:2381-2577). Called once, right after the state was reset. */
  method Format(s: Store, allow: bool) returns (ok: bool)
    requires s.ram != s.disk && s.ram.Length == s.disk.Length <= MAX_RAM_BLOCKS && s.dirty == [] && !s.dirtyAll
    modifies s, s.ram, s.disk
    ensures ok <==> s.ram.Length >= 10
    ensures !ok ==> s.ready == old(s.ready) && s.ram[..] == old(s.ram[..]) && s.disk[..] == old(s.disk[..])
    ensures ok ==>
              s.geo == Layout(s.ram.Length) && s.attached == old(s.attached) && (s.writable <==> allow && s.attached)
    ensures !s.writable ==> s.disk[..] == old(s.disk[..])
    ensures ok && s.writable ==> (s.lastFlushOk <==> s.Served(old(s.transfers)))
    ensures ok && s.writable && s.lastFlushOk ==> s.disk[..] == s.ram[..]
    ensures !ok || !s.writable ==> s.transfers == old(s.transfers)
    ensures ok ==> s.Valid()
    ensures ok ==> s.Contents() == Leaf(DirItem)
  {
    hide *;
    var geo: Geometry;
    ok, geo := PlanLayout(s.ram.Length);
    if !ok { return; }
    LayOut(s, geo);
    var root := PlaceRoot(s, geo.dataStart - geo.nodeStart, geo.blocks - geo.dataStart);
    Publish(s, allow, geo.dataStart - geo.nodeStart, geo.blocks - geo.dataStart);
  }
}
