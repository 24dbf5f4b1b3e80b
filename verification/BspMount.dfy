// Mounting (psf.cpp:2583-2701, 2966-3072): an image written by this file system comes back as it was;
// a damaged one is never overwritten.
module BspMount {
  import opened BspTypes
  import opened BspPaths
  import opened BspForest
  import opened BspState
  import opened BspStore
  import opened BspTree
  import opened BspEffects
  import opened BspFiles
  import opened BspFormat
  import opened BspValidate
  import opened BspTidy

  // ----- images

  ghost predicate NodeBlockOk(b: Block) { b.Inode? && |b.node.ptrs| == PTRS_PER_NODE }

  ghost predicate BitBlockOk(b: Block) { b.Bits? && |b.bits| == BITS_PER_BLOCK }

  /** Each block decodes as what its region holds. */
  ghost predicate Typed(image: seq<Block>, geo: Geometry) {
    && Fits(geo, |image|) && image[0] == Super(geo)
    && (forall c {:trigger image[c]} | 1 <= c < geo.nodeStart :: BitBlockOk(image[c]))
    && (forall c {:trigger image[c]} | geo.nodeStart <= c < geo.dataStart :: NodeBlockOk(image[c]))
    && (forall c {:trigger image[c]} | geo.dataStart <= c < geo.blocks :: IsData(image[c]))
  }

  ghost function NodeIn(image: seq<Block>, geo: Geometry, i: nat): Node
    requires Typed(image, geo) && i <= geo.dataStart - geo.nodeStart
  {
    if i == 0 then FREE_NODE else image[NodeBlock(geo, i)].node
  }

  ghost function UsedIn(image: seq<Block>, geo: Geometry, b: nat): bool
    requires Typed(image, geo) && b < geo.blocks - geo.dataStart
  {
    assert BitBlockOk(image[BitBlock(b)]);
    image[BitBlock(b)].bits[b % BITS_PER_BLOCK]
  }

  /** The memory an image stands for. */
  ghost function Decode(image: seq<Block>, geo: Geometry): Mem
    requires Typed(image, geo)
  {
    var nodes := geo.dataStart - geo.nodeStart;
    var blocks := geo.blocks - geo.dataStart;
    Mem(seq(nodes + 1, i requires 0 <= i <= nodes => NodeIn(image, geo, i)),
        seq(blocks, b requires 0 <= b < blocks => UsedIn(image, geo, b)),
        seq(blocks, b requires 0 <= b < blocks => image[DataBlock(geo, b)]))
  }

  lemma DecodeHolds(image: seq<Block>, geo: Geometry)
    requires Typed(image, geo)
    ensures Holds(image, geo, Decode(image, geo)) && Sized(Decode(image, geo))
  {
    var m := Decode(image, geo);
    forall i: nat {:trigger NodeBlock(geo, i)} | 0 < i < |m.nodes| ensures image[NodeBlock(geo, i)]
        == Inode(m.nodes[i]) {
      assert NodeBlockOk(image[NodeBlock(geo, i)]);
    }
    forall b: nat {:trigger BitBlock(b)} | b < |m.used| ensures image[BitBlock(b)].bits[b % BITS_PER_BLOCK]
        == m.used[b] {}
    forall i | 0 <= i < |m.nodes| ensures |m.nodes[i].ptrs| == PTRS_PER_NODE {
      if i > 0 { assert NodeBlockOk(image[NodeBlock(geo, i)]); }
    }
  }

  /** An image holding `m` decodes to `m`. */
  lemma HeldDecodes(image: seq<Block>, geo: Geometry, m: Mem)
    requires Holds(image, geo, m) && Sized(m)
    ensures Typed(image, geo) && Decode(image, geo) == m
  {
    HeldTyped(image, geo, m);
    var d := Decode(image, geo);
    assert d.nodes == m.nodes by {
      forall i | 0 <= i < |m.nodes| ensures d.nodes[i] == m.nodes[i] {
        if i > 0 { assert image[NodeBlock(geo, i)] == Inode(m.nodes[i]); }
      }
    }
    assert d.used == m.used by {
      forall b | 0 <= b < |m.used| ensures d.used[b] == m.used[b] {
        assert image[BitBlock(b)].bits[b % BITS_PER_BLOCK] == m.used[b];
      }
    }
    assert d.blocks == m.blocks by {
      forall b | 0 <= b < |m.blocks| ensures d.blocks[b] == m.blocks[b] {
        assert image[DataBlock(geo, b)] == m.blocks[b];
      }
    }
  }

  lemma HeldTyped(image: seq<Block>, geo: Geometry, m: Mem)
    requires Holds(image, geo, m) && Sized(m)
    ensures Typed(image, geo)
  {
    forall c | geo.nodeStart <= c < geo.dataStart ensures NodeBlockOk(image[c]) {
      assert NodeBlock(geo, c - geo.nodeStart + 1) == c;
    }
    forall c | geo.dataStart <= c < geo.blocks ensures IsData(image[c]) {
      assert DataBlock(geo, c - geo.dataStart) == c;
    }
  }

  /** Only the first geo.blocks blocks count. */
  lemma SamePrefix(a: seq<Block>, b: seq<Block>, geo: Geometry)
    requires |a| == |b| && geo.blocks <= |a| && a[..geo.blocks] == b[..geo.blocks]
    ensures Typed(a, geo) <==> Typed(b, geo)
    ensures Typed(a, geo) ==> Decode(a, geo) == Decode(b, geo)
  {
    forall i | 0 <= i < geo.blocks ensures a[i] == b[i] {
      assert a[..geo.blocks][i] == b[..geo.blocks][i];
    }
    if Typed(a, geo) { SameDecode(a, b, geo); }
  }

  lemma SameDecode(a: seq<Block>, b: seq<Block>, geo: Geometry)
    requires |a| == |b| && Typed(a, geo) && Typed(b, geo)
             && forall i {:trigger a[i]} {:trigger b[i]} | 0 <= i < geo.blocks :: a[i] == b[i]
    ensures Decode(a, geo) == Decode(b, geo)
  {
    assert Decode(a, geo).nodes == Decode(b, geo).nodes;
    assert Decode(a, geo).blocks == Decode(b, geo).blocks;
    forall i | 0 <= i < geo.blocks - geo.dataStart ensures Decode(a, geo).used[i] == Decode(b, geo).used[i] {
      assert a[BitBlock(i)] == b[BitBlock(i)];
    }
    assert Decode(a, geo).used == Decode(b, geo).used;
  }

  /** A medium the mount accepts: signature, geometry, decodable blocks, and consistent metadata. */
  ghost predicate Mountable(image: seq<Block>) {
    && |image| > 0 && image[0].Super? && GeometryOk(image[0].geo, |image|)
    && Typed(image, image[0].geo) && MetadataOk(Decode(image, image[0].geo), image[0].geo.root)
  }

  /** The image of a sound file system. */
  ghost predicate Saved(image: seq<Block>, m: Mem, s: Shape) {
    && |image| > 0 && image[0].Super? && Holds(image, image[0].geo, m) && Sized(m) && Rooted(m, s, image[0].geo.root)
  }

  /** Whatever this file system writes, it accepts again. */
  lemma SavedMountable(image: seq<Block>, m: Mem, s: Shape)
    requires Saved(image, m, s) && |image| <= MAX_RAM_BLOCKS
    ensures Mountable(image) && Decode(image, image[0].geo) == m
  {
    hide Rooted, Holds, MetadataOk, Sized, GeometryOk, Typed, Decode;
    var geo := image[0].geo;
    RootedPasses(m, s, geo.root);
    HeldDecodes(image, geo, m);
    HeldGeometry(image, geo, m);
  }

  lemma HeldGeometry(image: seq<Block>, geo: Geometry, m: Mem)
    requires Holds(image, geo, m) && 0 < geo.root && |image| <= MAX_RAM_BLOCKS
    ensures GeometryOk(geo, |image|)
  {
    GeometryFits(geo, |image|);
  }

  // ----- reading the medium

  /** One transfer from the medium: on failure the target holds anything. */
  method DiskRead(s: Store, lo: nat, n: nat) returns (ok: bool)
    requires s.ram != s.disk && s.ram.Length == s.disk.Length && lo + n <= s.disk.Length
    modifies s.ram, s`transfers
    ensures s.transfers == old(s.transfers) + 1 && ok == s.medium(old(s.transfers))
    ensures forall i | 0 <= i < s.ram.Length && !(lo <= i < lo + n) :: s.ram[i] == old(s.ram[i])
    ensures ok ==> forall i | lo <= i < lo + n :: s.ram[i] == s.disk[i]
  {
    ok := s.medium(s.transfers);
    s.transfers := s.transfers + 1;
    var i := lo;
    while i < lo + n
      invariant lo <= i <= lo + n && s.transfers == old(s.transfers) + 1
      invariant forall j | 0 <= j < s.ram.Length && !(lo <= j < i) :: s.ram[j] == old(s.ram[j])
      invariant ok ==> forall j | lo <= j < i :: s.ram[j] == s.disk[j]
    {
      var junk: Block := *;
      s.ram[i] := if ok then s.disk[i] else junk;
      i := i + 1;
    }
  }

  /** `czytaj_sektory_porcjami`, four blocks (32 sectors) at a time. */
  method ReadAll(s: Store, count: nat) returns (ok: bool)
    requires s.ram != s.disk && s.ram.Length == s.disk.Length && count <= s.disk.Length
    modifies s.ram, s`transfers
    ensures s.transfers >= old(s.transfers) && (ok <==> s.Served(old(s.transfers)))
    ensures ok ==> s.ram[..count] == s.disk[..count]
  {
    ok := true;
    var at := 0;
    while at < count && ok
      invariant 0 <= at <= count && s.transfers >= old(s.transfers) && (ok <==> s.Served(old(s.transfers)))
      invariant ok ==> forall i | 0 <= i < at :: s.ram[i] == s.disk[i]
      decreases count - at, ok
    {
      var n := Min(4, count - at);
      ok := DiskRead(s, at, n);
      if ok { at := at + n; }
    }
  }

  /** Do the blocks decode, each by its region? For a node this is the check of its type byte. */
  method CheckTypes(s: Store, geo: Geometry) returns (ok: bool)
    requires Fits(geo, s.ram.Length) && s.ram[0] == Super(geo)
    ensures ok <==> Typed(s.ram[..], geo)
  {
    var i := 1;
    while i < geo.blocks
      invariant 1 <= i <= geo.blocks
      invariant forall c | 1 <= c < i && c < geo.nodeStart :: BitBlockOk(s.ram[c])
      invariant forall c | geo.nodeStart <= c < i && c < geo.dataStart :: NodeBlockOk(s.ram[c])
      invariant forall c | geo.dataStart <= c < i :: IsData(s.ram[c])
    {
      var b := s.ram[i];
      assert b == s.ram[..][i];
      if i < geo.nodeStart {
        if !(b.Bits? && |b.bits| == BITS_PER_BLOCK) { return false; }
      } else if i < geo.dataStart {
        if !(b.Inode? && |b.node.ptrs| == PTRS_PER_NODE) { return false; }
      } else if !(b.Blank? || (b.Bytes? && |b.bytes| == BLOCK_BYTES)
          || (b.Entries? && |b.entries| == ENTRIES_PER_BLOCK)) {
        return false;
      }
      i := i + 1;
    }
    ok := true;
  }

  datatype Outcome = NoMedium | NoFileSystem | Damaged | Mounted

  /** The state handed over by a successful mount. */
  ghost predicate Fresh(s: Store)
    reads s`attached, s`writable, s`dirty, s`dirtyAll, s`hint, s`lastFlushOk, s`pend
  {
    s.attached && s.writable && s.dirty == [] && !s.dirtyAll && s.hint == 0 && s.lastFlushOk && s.pend == {}
  }

  /** `wczytaj_istniejacy_bsp2` (psf.cpp:2583-2701). A mounted image is a file system exactly when its memory is tidy
      and clear, whoever wrote it. */
  method Mount(s: Store) returns (outcome: Outcome)
    requires s.ram != s.disk && s.ram.Length == s.disk.Length <= MAX_RAM_BLOCKS && s.ram.Length > 0
    requires !s.ready && !s.writable && s.dirty == [] && !s.dirtyAll
    modifies s, s.ram
    ensures s.transfers > old(s.transfers)
    ensures outcome == NoMedium <==> !s.medium(old(s.transfers))
    ensures outcome == NoFileSystem <==> s.medium(old(s.transfers)) && !s.disk[0].Super?
    ensures outcome == Mounted <==> s.Served(old(s.transfers)) && Mountable(s.disk[..])
    ensures s.ready <==> outcome == Mounted
    ensures s.attached <==> outcome != NoMedium
    ensures s.writable <==> outcome == NoFileSystem || outcome == Mounted
    ensures s.dirty == [] && !s.dirtyAll
    ensures outcome == Mounted ==> Fresh(s) && s.Ok() && s.geo == s.disk[0].geo
    ensures outcome == Mounted ==> s.mem == Decode(s.disk[..], s.disk[0].geo)
    ensures outcome == Mounted ==> (s.Valid() <==> Tidy(s.mem, s.geo.root) && Clear(s.mem))
  {
    hide Store.Ok, Typed, Decode, MetadataOk, GeometryOk, Fits, Tidy, Clear, Rooted;
    var readable := s.medium(s.transfers);
    s.transfers := s.transfers + 1;
    if !readable {
      s.attached := false;
      return NoMedium;
    }
    s.attached := true;
    var candidate := s.disk[0];
    if !candidate.Super? {
      s.writable := true;
      return NoFileSystem;
    }
    var ok, nodes, blocks := CheckGeometry(candidate.geo, s.ram.Length);
    if !ok {
      s.writable := false;
      return Damaged;
    }
    outcome := MountImage(s, candidate.geo);
  }

  /** The second half: the whole image is read, checked again and validated. */
  method MountImage(s: Store, geo: Geometry) returns (outcome: Outcome)
    requires s.ram != s.disk && s.ram.Length == s.disk.Length <= MAX_RAM_BLOCKS && s.ram.Length > 0
    requires !s.ready && s.attached && s.dirty == [] && !s.dirtyAll
    requires s.disk[0] == Super(geo) && GeometryOk(geo, s.ram.Length)
    modifies s, s.ram
    ensures s.transfers >= old(s.transfers)
    ensures outcome == Mounted || outcome == Damaged
    ensures outcome == Mounted <==> s.Served(old(s.transfers)) && Mountable(s.disk[..])
    ensures s.ready <==> outcome == Mounted
    ensures s.attached && (s.writable <==> outcome == Mounted)
    ensures s.dirty == [] && !s.dirtyAll
    ensures outcome == Mounted ==> Fresh(s) && s.Ok() && s.geo == geo
    ensures outcome == Mounted ==> s.mem == Decode(s.disk[..], geo)
    ensures outcome == Mounted ==> (s.Valid() <==> Tidy(s.mem, s.geo.root) && Clear(s.mem))
  {
    hide Store.Ok, Store.Valid, Store.Served, Typed, Decode, MetadataOk, Fits, Tidy, Clear, Rooted, ShapeOf, Holds;
    hide Sized;
    GeometryFits(geo, s.ram.Length);
    outcome := Damaged;
    s.writable := false;
    var read := ReadAll(s, geo.total / BLOCK_BYTES);
    if !read { return; }
    SamePrefix(s.ram[..], s.disk[..], geo);
    FirstBlock(s.ram[..], s.disk[..], geo);
    var ok, nodes, blocks := CheckGeometry(geo, s.ram.Length);
    var typed := CheckTypes(s, geo);
    if !typed { return; }
    s.geo := geo;
    s.mem := Decode(s.ram[..], geo);
    s.shape := ShapeOf(s.mem, geo.root);
    s.pend := {};
    s.hint := 0;
    s.ready := true;
    DecodeHolds(s.ram[..], geo);
    NowSynced(s);
    var valid := ValidateMetadata(s);
    if !valid {
      s.ready := false;
      return;
    }
    s.dirty, s.dirtyAll := [], false;
    s.writable, s.lastFlushOk := true, true;
    NowSynced(s);
    WhenMounted(s);
    outcome := Mounted;
  }

  lemma WhenMounted(s: Store)
    requires s.Ok() && s.pend == {} && s.shape == ShapeOf(s.mem, s.geo.root) && MetadataOk(s.mem, s.geo.root)
    ensures s.Valid() <==> Tidy(s.mem, s.geo.root) && Clear(s.mem)
  {
    hide Store.Ok, MetadataOk, Tidy, Clear, Rooted, ShapeOf;
    WhenATree(s.mem, s.geo.root);
  }

  lemma FirstBlock(a: seq<Block>, b: seq<Block>, geo: Geometry)
    requires |a| == |b| && 0 < geo.blocks <= |a| && a[..geo.blocks] == b[..geo.blocks]
    ensures a[0] == b[0]
  {
    assert a[..geo.blocks][0] == a[0];
  }

  lemma NowSynced(s: Store)
    requires s.ready && Holds(s.ram[..], s.geo, s.mem) && Sized(s.mem) && s.ram != s.disk
             && s.ram.Length == s.disk.Length
    requires s.dirty == [] && s.geo.blocks <= s.ram.Length && s.ram[..s.geo.blocks] == s.disk[..s.geo.blocks]
    ensures s.Ok()
  {
    forall i | 0 <= i < s.geo.blocks ensures s.ram[i] == s.disk[i] {
      assert s.ram[..s.geo.blocks][i] == s.disk[..s.geo.blocks][i];
    }
  }

  /** `inicjalizuj_psf` (psf.cpp:2968-3081), on a just constructed store. */
  method Init(s: Store) returns (outcome: Outcome)
    requires s.ram != s.disk && s.ram.Length == s.disk.Length <= MAX_RAM_BLOCKS
    requires !s.ready && !s.writable && s.dirty == [] && !s.dirtyAll
    modifies s, s.ram, s.disk
    ensures s.ready <==> s.ram.Length >= 10
    ensures outcome == Damaged ==> s.disk[..] == old(s.disk[..]) && !s.writable
    ensures outcome == Mounted <==> s.ready && s.Served(old(s.transfers)) && Mountable(old(s.disk[..]))
    ensures outcome == Mounted ==> s.disk[..] == old(s.disk[..]) && s.disk.Length > 0 && s.disk[0] == Super(s.geo)
    ensures outcome == Mounted ==> s.Ok() && s.mem == Decode(s.disk[..], s.geo)
    ensures outcome == Mounted ==> (s.Valid() <==> Tidy(s.mem, s.geo.root) && Clear(s.mem))
    ensures s.ready ==> (s.attached && s.writable <==> outcome == Mounted || outcome == NoFileSystem)
    ensures s.ready && outcome != Mounted ==> s.Valid() && s.Contents() == Leaf(DirItem)
    ensures s.ready && outcome != Mounted ==> s.geo == Layout(s.ram.Length)
  {
    hide Store.Ok, Store.Valid, Store.Contents, Typed, Decode, MetadataOk, GeometryOk, Fits, Rooted, Tidy, Clear;
    outcome := NoMedium;
    if s.ram.Length < MIN_BLOCKS { return; }
    outcome := Mount(s);
    if outcome == Mounted {
      DecodedSuper(s.disk[..]);
      return;
    }
    if outcome == Damaged {
      var made := Format(s, false);
    } else {
      var made := Format(s, s.attached);
    }
  }

  lemma DecodedSuper(image: seq<Block>)
    requires Mountable(image)
    ensures image[0] == Super(image[0].geo) && Typed(image, image[0].geo)
  {
  }

  /** What a sound file system has written is mounted as the same memory, and is a file system again. */
  lemma SavedTidy(image: seq<Block>, m: Mem, s: Shape)
    requires Saved(image, m, s) && |image| <= MAX_RAM_BLOCKS
    ensures Mountable(image) && Decode(image, image[0].geo) == m && Tidy(m, image[0].geo.root) && Clear(m)
  {
    hide Rooted, Holds, Tidy, Clear, Mountable, Decode;
    SavedMountable(image, m, s);
    WhenATree(m, image[0].geo.root);
  }

  // ----- an image with a shared node

  const SHARED_GEOMETRY := Geometry(10 * BLOCK_BYTES, 10, 1, 7, 9)

  /** A medium of ten blocks that holds it. */
  function SharedImage(): seq<Block> {
    var bits := Bits([true] + seq(BITS_PER_BLOCK - 1, _ => false));
    [Super(SHARED_GEOMETRY), bits, bits, bits, bits, bits, bits,
     Inode(SHARED_NODE.nodes[1]), Inode(SHARED_NODE.nodes[2]), SHARED_NODE.blocks[0]]
  }

  /** The mount accepts a medium on which one node has two entries: no tree has its memory. */
  lemma MountsSharedNode()
    ensures Mountable(SharedImage()) && Decode(SharedImage(), SHARED_GEOMETRY) == SHARED_NODE
    ensures !Tidy(SHARED_NODE, 1) && forall s: Shape :: !Rooted(SHARED_NODE, s, 1)
  {
    var image := SharedImage();
    SharedHeld();
    AcceptsSharedNode();
    hide Rooted, Holds, MetadataOk, Sized, Typed, Decode, SharedImage, Tidy;
    HeldDecodes(image, SHARED_GEOMETRY, SHARED_NODE);
    HeldGeometry(image, SHARED_GEOMETRY, SHARED_NODE);
    SharedNotTidy();
  }

  lemma SharedHeld()
    ensures Holds(SharedImage(), SHARED_GEOMETRY, SHARED_NODE) && Sized(SHARED_NODE)
    ensures |SharedImage()| == 10 && SharedImage()[0] == Super(SHARED_GEOMETRY)
  {
  }

  lemma SharedNotTidy()
    ensures !Tidy(SHARED_NODE, 1)
  {
    var m := SHARED_NODE;
    SharedPtrs();
    hide EntryAt, PtrAt, Reached, OneOwner;
    assert Names(m, 1, 0, 0, 2) && Names(m, 1, 0, 1, 2);
    hide Tidy;
    if Tidy(m, 1) { OneSlotOnly(m, 1, 1, 0, 0, 1, 0, 1, 2); }
  }

  lemma OneSlotOnly(m: Mem, root: nat, d: nat, k: nat, j: nat, c: nat, l: nat, h: nat, x: nat)
    requires Tidy(m, root) && Names(m, d, k, j, x) && Names(m, c, l, h, x)
    ensures d == c && k == l && j == h
  {
    hide Names, Reached, OneOwner;
    assert OneEntry(m, root, x);
  }
}
