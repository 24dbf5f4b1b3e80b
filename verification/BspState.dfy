// The file system in memory (nodes, bitmap, data blocks) and the invariant it keeps:
// who owns each block, what each directory lists, and that the directories form a tree.
module BspState {
  import opened BspTypes
  import opened BspPaths
  import opened BspForest

  /** nodes[id] for id >= 1; nodes[0] stands for "no node". */
  datatype Mem = Mem(nodes: seq<Node>, used: seq<bool>, blocks: seq<Block>)

  datatype Owner = Owner(node: nat, k: nat)

  /** Where a directory keeps an entry, and the node it names. */
  datatype Slot = Slot(k: nat, j: nat, id: nat)

  type Dirs = map<nat, map<Name, Slot>>

  datatype Shape = Shape(own: map<nat, Owner>, dirs: Dirs, roots: set<nat>, place: map<nat, Place>)

  datatype Item = DirItem | FileItem(bytes: seq<Byte>)

  type Tree = imap<Path, Item>

  function PtrAt(m: Mem, i: nat, k: nat): nat {
    if i < |m.nodes| && k < |m.nodes[i].ptrs| then m.nodes[i].ptrs[k] else NO_BLOCK
  }

  function EntryAt(m: Mem, d: nat, k: nat, j: nat): Entry {
    var b := PtrAt(m, d, k);
    if b < |m.blocks| && j < |EntriesOf(m.blocks[b])| then EntriesOf(m.blocks[b])[j] else EMPTY_ENTRY
  }

  function ByteAt(m: Mem, i: nat, y: nat): Byte {
    var b := PtrAt(m, i, y / BLOCK_BYTES);
    if b < |m.blocks| && y % BLOCK_BYTES < |BytesOf(m.blocks[b])|
    then BytesOf(m.blocks[b])[y % BLOCK_BYTES] else 0
  }

  /** A file's contents. */
  function FileBytes(m: Mem, i: nat): seq<Byte>
    requires i < |m.nodes|
  {
    seq(m.nodes[i].size, y requires 0 <= y => ByteAt(m, i, y))
  }

  function ItemOf(m: Mem, i: nat): Item {
    if i < |m.nodes| && m.nodes[i].kind == File then FileItem(FileBytes(m, i)) else DirItem
  }

  function GraphOf(dirs: Dirs): Graph {
    map d | d in dirs :: map n | n in dirs[d] :: dirs[d][n].id
  }

  /** The tree a user sees below a root: every existing path and what is there. */
  ghost function TreeAt(m: Mem, dirs: Dirs, root: nat): Tree {
    imap p: Path | Walk(GraphOf(dirs), root, p) != 0 :: ItemOf(m, Walk(GraphOf(dirs), root, p))
  }

  ghost function Live(m: Mem): set<nat> {
    set i | 0 < i < |m.nodes| && m.nodes[i].kind != Free
  }

  // ----- the invariant

  ghost predicate IsData(b: Block) {
    || b.Blank?
    || (b.Bytes? && |b.bytes| == BLOCK_BYTES)
    || (b.Entries? && |b.entries| == ENTRIES_PER_BLOCK)
  }

  ghost predicate Sized(m: Mem) {
    && |m.used| == |m.blocks| < NO_BLOCK
    && |m.nodes| > 0 && m.nodes[0] == FREE_NODE
    && (forall i | 0 <= i < |m.nodes| :: |m.nodes[i].ptrs| == PTRS_PER_NODE)
    && (forall b | 0 <= b < |m.blocks| :: IsData(m.blocks[b]))
  }

  /** Every pointer owns its block alone; a bit is set exactly for an owned block; what is free is clear. */
  ghost predicate Owned(m: Mem, own: map<nat, Owner>) {
    && (forall i: nat, k: nat {:trigger PtrAt(m, i, k)} :: PtrAt(m, i, k) != NO_BLOCK ==>
          PtrAt(m, i, k) in own && own[PtrAt(m, i, k)] == Owner(i, k))
    && (forall b <- own :: b < |m.blocks| && PtrAt(m, own[b].node, own[b].k) == b)
    && (forall b | 0 <= b < |m.used| :: m.used[b] <==> b in own)
    && (forall b | 0 <= b < |m.blocks| && b !in own :: m.blocks[b] == Blank)
    && (forall i | 0 <= i < |m.nodes| && m.nodes[i].kind == Free :: m.nodes[i] == FREE_NODE)
  }

  /** A file holds exactly the ceil(size / 4096) blocks its bytes need, from pointer 0 on. */
  ghost predicate FileOk(m: Mem, i: nat) {
    && i < |m.nodes| && m.nodes[i].size <= MAX_FILE_BYTES
    && forall k: nat {:trigger PtrAt(m, i, k)} :: k < PTRS_PER_NODE ==>
         && (PtrAt(m, i, k) != NO_BLOCK <==> k * BLOCK_BYTES < m.nodes[i].size)
         && (PtrAt(m, i, k) < |m.blocks| ==> m.blocks[PtrAt(m, i, k)].Bytes?)
  }

  /** A directory's blocks list exactly the names of `names`, each once, and its size counts them. */
  ghost predicate DirOk(m: Mem, d: nat, names: map<Name, Slot>) {
    && d < |m.nodes| && m.nodes[d].size == |names|
    && (forall k: nat, l: nat {:trigger PtrAt(m, d, k), PtrAt(m, d, l)} ::
          k < l && PtrAt(m, d, k) == NO_BLOCK ==> PtrAt(m, d, l) == NO_BLOCK)
    && (forall n <- names ::
          && ValidName(n) && names[n].id != 0
          && EntryAt(m, d, names[n].k, names[n].j) == Entry(names[n].id, n))
    && (forall k: nat, j: nat {:trigger EntryAt(m, d, k, j)} :: EntryAt(m, d, k, j).id != 0 ==>
          && EntryAt(m, d, k, j).name in names
          && names[EntryAt(m, d, k, j).name] == Slot(k, j, EntryAt(m, d, k, j).id))
  }

  ghost predicate IsDir(m: Mem, d: nat) { d < |m.nodes| && m.nodes[d].kind == Dir }

  ghost predicate IsFile(m: Mem, i: nat) { i < |m.nodes| && m.nodes[i].kind == File }

  /** Blocks, directories and files are in order; node `busy` may be half done (0: none is). */
  ghost predicate Struct(m: Mem, own: map<nat, Owner>, dirs: Dirs, busy: nat) {
    && Sized(m)
    && Owned(m, own)
    && (forall d: nat {:trigger d in dirs} {:trigger IsDir(m, d)} :: d in dirs <==> IsDir(m, d))
    && (forall d <- dirs :: d != busy ==> DirOk(m, d, dirs[d]))
    && (forall i: nat {:trigger IsFile(m, i)} :: IsFile(m, i) && i != busy ==> FileOk(m, i))
  }

  ghost predicate Sound(m: Mem, s: Shape, busy: nat) {
    && Struct(m, s.own, s.dirs, busy)
    && Forest(GraphOf(s.dirs), s.roots, s.place)
    && s.place.Keys == Live(m)
  }

  /** A sound state whose only tree hangs under `root`. */
  ghost predicate Rooted(m: Mem, s: Shape, root: nat) {
    Sound(m, s, 0) && s.roots == {root} && root in s.dirs
  }

  lemma Basics(m: Mem, s: Shape, busy: nat)
    requires Sound(m, s, busy)
    ensures 0 !in s.dirs && 0 !in GraphOf(s.dirs) && s.roots <= s.place.Keys && s.dirs.Keys <= s.place.Keys
    ensures forall d: nat {:trigger d in s.dirs} {:trigger IsDir(m, d)} :: d in s.dirs <==> IsDir(m, d)
    ensures forall x <- s.place :: 0 < x < |m.nodes| && m.nodes[x].kind != Free
  {
    assert GraphOf(s.dirs).Keys == s.dirs.Keys;
  }

  // ----- single changes of the memory

  function WithNode(m: Mem, i: nat, w: Node): Mem
    requires i < |m.nodes|
  {
    m.(nodes := m.nodes[i := w])
  }

  function WithBlock(m: Mem, b: nat, c: Block): Mem
    requires b < |m.blocks|
  {
    m.(blocks := m.blocks[b := c])
  }

  function WithUsed(m: Mem, b: nat, v: bool): Mem
    requires b < |m.used|
  {
    m.(used := m.used[b := v])
  }

  function WithPtr(w: Node, k: nat, b: nat): Node
    requires k < |w.ptrs|
  {
    w.(ptrs := w.ptrs[k := b])
  }

  /** Pointer `k` of node `i` takes the free block `b`, now holding `c`. */
  function Grown(m: Mem, i: nat, k: nat, b: nat, c: Block): Mem
    requires i < |m.nodes| && k < |m.nodes[i].ptrs| && b < |m.blocks| && b < |m.used|
  {
    WithNode(WithBlock(WithUsed(m, b, true), b, c), i, WithPtr(m.nodes[i], k, b))
  }

  /** Pointer `k` of node `i` gives its block back. */
  function Shrunk(m: Mem, i: nat, k: nat): Mem
    requires i < |m.nodes| && k < |m.nodes[i].ptrs|
    requires m.nodes[i].ptrs[k] < |m.blocks| && m.nodes[i].ptrs[k] < |m.used|
  {
    var b := m.nodes[i].ptrs[k];
    WithNode(WithBlock(WithUsed(m, b, false), b, Blank), i, WithPtr(m.nodes[i], k, NO_BLOCK))
  }

  /** Slot (k, j) of directory `d` is overwritten and the entry count adjusted. */
  function Written(m: Mem, d: nat, k: nat, j: nat, e: Entry, count: nat): Mem
    requires Sized(m) && d < |m.nodes| && PtrAt(m, d, k) < |m.blocks| && j < ENTRIES_PER_BLOCK
  {
    var b := PtrAt(m, d, k);
    WithNode(WithBlock(m, b, Entries(EntriesOf(m.blocks[b])[j := e])), d, m.nodes[d].(size := count))
  }

  // ----- what one node's change leaves alone

  /** Nodes other than `i` and blocks not pointed to by them are as before. */
  ghost predicate OnlyNode(m: Mem, m': Mem, i: nat) {
    && |m'.nodes| == |m.nodes| && |m'.blocks| == |m.blocks|
    && (forall y | 0 <= y < |m.nodes| && y != i :: m'.nodes[y] == m.nodes[y])
    && (forall y: nat, k: nat {:trigger PtrAt(m, y, k)} :: y != i && PtrAt(m, y, k) < |m.blocks| ==>
          m'.blocks[PtrAt(m, y, k)] == m.blocks[PtrAt(m, y, k)])
  }

  lemma OwnedElsewhere(m: Mem, own: map<nat, Owner>, m': Mem, i: nat, b: nat)
    requires Owned(m, own) && |m.blocks| < NO_BLOCK
    requires |m'.nodes| == |m.nodes| && |m'.blocks| == |m.blocks|
    requires forall y | 0 <= y < |m.nodes| && y != i :: m'.nodes[y] == m.nodes[y]
    requires forall y | 0 <= y < |m.blocks| && y != b :: m'.blocks[y] == m.blocks[y]
    requires b in own ==> own[b].node == i
    ensures OnlyNode(m, m', i)
  {
  }

  lemma DirFrame(m: Mem, m': Mem, i: nat, d: nat, names: map<Name, Slot>)
    requires OnlyNode(m, m', i) && d != i && |m.blocks| < NO_BLOCK
    requires DirOk(m, d, names)
    ensures DirOk(m', d, names)
  {
    forall k: nat ensures PtrAt(m', d, k) == PtrAt(m, d, k) {}
    forall k: nat, j: nat ensures EntryAt(m', d, k, j) == EntryAt(m, d, k, j) {}
  }

  lemma FileFrame(m: Mem, m': Mem, i: nat, f: nat)
    requires OnlyNode(m, m', i) && f != i && f < |m.nodes| && |m.blocks| < NO_BLOCK
    ensures FileOk(m, f) ==> FileOk(m', f)
    ensures FileBytes(m', f) == FileBytes(m, f)
  {
    forall k: nat ensures PtrAt(m', f, k) == PtrAt(m, f, k) {}
    forall y: nat ensures ByteAt(m', f, y) == ByteAt(m, f, y) {}
  }

  lemma ItemFrame(m: Mem, m': Mem, i: nat, f: nat)
    requires OnlyNode(m, m', i) && f != i && |m.blocks| < NO_BLOCK
    ensures ItemOf(m', f) == ItemOf(m, f)
  {
    if f < |m.nodes| { FileFrame(m, m', i, f); }
  }

  /** Everything but node `i` stays in order when only `i` and its blocks change. */
  lemma StructFrame(m: Mem, own: map<nat, Owner>, dirs: Dirs, busy: nat, m': Mem, own': map<nat, Owner>, i: nat,
      busy': nat)
    requires Struct(m, own, dirs, busy)
    requires OnlyNode(m, m', i) && Sized(m') && Owned(m', own') && i < |m.nodes|
    requires busy' == busy || (busy == i && busy' == 0)
    requires IsDir(m', i) <==> IsDir(m, i)
    requires IsDir(m', i) && i != busy' ==> DirOk(m', i, dirs[i])
    requires IsFile(m', i) && i != busy' ==> FileOk(m', i)
    ensures Struct(m', own', dirs, busy')
  {
    forall d: nat ensures d in dirs <==> IsDir(m', d) {
      assert d in dirs <==> IsDir(m, d);
    }
    forall d <- dirs | d != busy' ensures DirOk(m', d, dirs[d]) {
      if d != i { DirFrame(m, m', i, d, dirs[d]); }
    }
    forall f: nat | IsFile(m', f) && f != busy' ensures FileOk(m', f) {
      if f != i { assert IsFile(m, f); FileFrame(m, m', i, f); }
    }
  }

  // ----- the changes and the ownership of blocks

  lemma GrownOwned(m: Mem, own: map<nat, Owner>, i: nat, k: nat, b: nat, c: Block)
    requires Sized(m) && Owned(m, own) && IsData(c)
    requires i < |m.nodes| && m.nodes[i].kind != Free && k < PTRS_PER_NODE && m.nodes[i].ptrs[k] == NO_BLOCK
    requires b < |m.blocks| && !m.used[b]
    ensures Sized(Grown(m, i, k, b, c)) && Owned(Grown(m, i, k, b, c), own[b := Owner(i, k)])
    ensures OnlyNode(m, Grown(m, i, k, b, c), i)
  {
    var m' := Grown(m, i, k, b, c);
    forall y: nat, l: nat
      ensures PtrAt(m', y, l) == if y == i && l == k then b else PtrAt(m, y, l)
    {}
    OwnedElsewhere(m, own, m', i, b);
  }

  lemma ShrunkOwned(m: Mem, own: map<nat, Owner>, i: nat, k: nat)
    requires Sized(m) && Owned(m, own)
    requires i < |m.nodes| && k < PTRS_PER_NODE && m.nodes[i].ptrs[k] != NO_BLOCK
    ensures m.nodes[i].ptrs[k] < |m.blocks| && m.used[m.nodes[i].ptrs[k]]
    ensures Sized(Shrunk(m, i, k)) && Owned(Shrunk(m, i, k), own - {m.nodes[i].ptrs[k]})
    ensures OnlyNode(m, Shrunk(m, i, k), i)
  {
    var b := PtrAt(m, i, k);
    assert b in own && own[b] == Owner(i, k);
    var m' := Shrunk(m, i, k);
    assert m.nodes[i].kind != Free;
    forall y: nat, l: nat
      ensures PtrAt(m', y, l) == if y == i && l == k then NO_BLOCK else PtrAt(m, y, l)
    {}
    OwnedElsewhere(m, own, m', i, b);
  }

  lemma WrittenOwned(m: Mem, own: map<nat, Owner>, d: nat, k: nat, j: nat, e: Entry, count: nat)
    requires Sized(m) && Owned(m, own) && d < |m.nodes| && m.nodes[d].kind != Free
    requires PtrAt(m, d, k) < |m.blocks| && j < ENTRIES_PER_BLOCK
    ensures var m' := Written(m, d, k, j, e, count); Sized(m') && Owned(m', own) && OnlyNode(m, m', d)
    ensures forall l: nat, h: nat ::
            EntryAt(Written(m, d, k, j, e, count), d, l, h) == if l == k && h == j then e else EntryAt(m, d, l, h)
    ensures forall l: nat :: PtrAt(Written(m, d, k, j, e, count), d, l) == PtrAt(m, d, l)
  {
    var m' := Written(m, d, k, j, e, count);
    var b := PtrAt(m, d, k);
    assert b in own && own[b] == Owner(d, k);
    forall y: nat, l: nat ensures PtrAt(m', y, l) == PtrAt(m, y, l) {}
    OwnedElsewhere(m, own, m', d, b);
    forall l: nat, h: nat
      ensures EntryAt(m', d, l, h) == if l == k && h == j then e else EntryAt(m, d, l, h)
    {}
  }

  // ----- the changes and the directories

  lemma SameEntries(m: Mem, m': Mem, d: nat, names: map<Name, Slot>)
    requires DirOk(m, d, names) && d < |m'.nodes| && m'.nodes[d].size == m.nodes[d].size
    requires forall l: nat, h: nat :: EntryAt(m', d, l, h) == EntryAt(m, d, l, h)
    requires forall k: nat, l: nat :: k < l && PtrAt(m', d, k) == NO_BLOCK ==> PtrAt(m', d, l) == NO_BLOCK
    ensures DirOk(m', d, names)
  {
  }

  /** A directory takes one more, empty, block. */
  lemma DirGrows(m: Mem, own: map<nat, Owner>, dirs: Dirs, busy: nat, d: nat, k: nat, b: nat)
    requires Struct(m, own, dirs, busy) && d in dirs && d != busy
    requires k < PTRS_PER_NODE && PtrAt(m, d, k) == NO_BLOCK && b < |m.blocks| && !m.used[b]
    requires forall l: nat :: l < k ==> PtrAt(m, d, l) != NO_BLOCK
    ensures Struct(Grown(m, d, k, b, Blank), own[b := Owner(d, k)], dirs, busy)
    ensures OnlyNode(m, Grown(m, d, k, b, Blank), d)
  {
    var m' := Grown(m, d, k, b, Blank);
    assert IsDir(m, d);
    GrownOwned(m, own, d, k, b, Blank);
    forall l: nat ensures PtrAt(m', d, l) == if l == k then b else PtrAt(m, d, l) {}
    forall l: nat, h: nat ensures EntryAt(m', d, l, h) == EntryAt(m, d, l, h) {}
    SameEntries(m, m', d, dirs[d]);
    StructFrame(m, own, dirs, busy, m', own[b := Owner(d, k)], d, busy);
  }

  /** A name is entered into an empty slot. */
  lemma DirGains(m: Mem, own: map<nat, Owner>, dirs: Dirs, busy: nat, d: nat, k: nat, j: nat, n: Name, x: nat)
    requires Struct(m, own, dirs, busy) && d in dirs && d != busy && n !in dirs[d] && ValidName(n) && x != 0
    requires PtrAt(m, d, k) != NO_BLOCK && j < ENTRIES_PER_BLOCK && EntryAt(m, d, k, j).id == 0
    ensures PtrAt(m, d, k) < |m.blocks| && d < |m.nodes|
    ensures var m' := Written(m, d, k, j, Entry(x, n), m.nodes[d].size + 1);
            Struct(m', own, dirs[d := dirs[d][n := Slot(k, j, x)]], busy) && OnlyNode(m, m', d)
  {
    assert IsDir(m, d);
    assert PtrAt(m, d, k) in own;
    var m' := Written(m, d, k, j, Entry(x, n), m.nodes[d].size + 1);
    var names := dirs[d][n := Slot(k, j, x)];
    WrittenOwned(m, own, d, k, j, Entry(x, n), m.nodes[d].size + 1);
    assert DirOk(m', d, names);
    StructWithNames(m, own, dirs, busy, m', d, names);
  }

  /** A name is wiped from its slot. */
  lemma DirLoses(m: Mem, own: map<nat, Owner>, dirs: Dirs, busy: nat, d: nat, n: Name)
    requires Struct(m, own, dirs, busy) && d in dirs && d != busy && n in dirs[d]
    ensures PtrAt(m, d, dirs[d][n].k) < |m.blocks| && dirs[d][n].j < ENTRIES_PER_BLOCK && d < |m.nodes|
            && m.nodes[d].size > 0
    ensures var m' := Written(m, d, dirs[d][n].k, dirs[d][n].j, EMPTY_ENTRY, m.nodes[d].size - 1);
            Struct(m', own, dirs[d := dirs[d] - {n}], busy) && OnlyNode(m, m', d)
  {
    assert IsDir(m, d);
    var t := dirs[d][n];
    assert EntryAt(m, d, t.k, t.j) == Entry(t.id, n);
    var m' := Written(m, d, t.k, t.j, EMPTY_ENTRY, m.nodes[d].size - 1);
    WrittenOwned(m, own, d, t.k, t.j, EMPTY_ENTRY, m.nodes[d].size - 1);
    NameWiped(m, m', d, dirs[d], n);
    StructWithNames(m, own, dirs, busy, m', d, dirs[d] - {n});
  }

  lemma NameWiped(m: Mem, m': Mem, d: nat, names: map<Name, Slot>, n: Name)
    requires DirOk(m, d, names) && n in names && d < |m'.nodes| && m'.nodes[d].size == m.nodes[d].size - 1
    requires forall l: nat, h: nat ::
             EntryAt(m', d, l, h) == if l == names[n].k && h == names[n].j then EMPTY_ENTRY else EntryAt(m, d, l, h)
    requires forall l: nat :: PtrAt(m', d, l) == PtrAt(m, d, l)
    ensures DirOk(m', d, names - {n})
  {
    var left := names - {n};
    assert names.Keys == {n} + left.Keys;
    WipedNamesKept(m, m', d, names, n);
    WipedEntriesKept(m, m', d, names, n);
  }

  lemma WipedNamesKept(m: Mem, m': Mem, d: nat, names: map<Name, Slot>, n: Name)
    requires DirOk(m, d, names) && n in names
    requires forall l: nat, h: nat ::
             EntryAt(m', d, l, h) == if l == names[n].k && h == names[n].j then EMPTY_ENTRY else EntryAt(m, d, l, h)
    ensures forall q <- names :: q != n ==> EntryAt(m', d, names[q].k, names[q].j) == Entry(names[q].id, q)
  {
    forall q <- names | q != n
      ensures EntryAt(m', d, names[q].k, names[q].j) == Entry(names[q].id, q)
    {
      assert EntryAt(m, d, names[q].k, names[q].j) == Entry(names[q].id, q);
      assert EntryAt(m, d, names[n].k, names[n].j) == Entry(names[n].id, n);
    }
  }

  lemma WipedEntriesKept(m: Mem, m': Mem, d: nat, names: map<Name, Slot>, n: Name)
    requires DirOk(m, d, names) && n in names
    requires forall l: nat, h: nat ::
             EntryAt(m', d, l, h) == if l == names[n].k && h == names[n].j then EMPTY_ENTRY else EntryAt(m, d, l, h)
    ensures forall k: nat, j: nat {:trigger EntryAt(m', d, k, j)} :: EntryAt(m', d, k, j).id != 0 ==>
              var q := EntryAt(m', d, k, j).name;
              q in names && q != n && names[q] == Slot(k, j, EntryAt(m', d, k, j).id)
  {
    forall k: nat, j: nat | EntryAt(m', d, k, j).id != 0
      ensures var q := EntryAt(m', d, k, j).name;
              q in names && q != n && names[q] == Slot(k, j, EntryAt(m', d, k, j).id)
    {
      assert EntryAt(m, d, k, j) == EntryAt(m', d, k, j);
    }
  }

  lemma StructWithNames(m: Mem, own: map<nat, Owner>, dirs: Dirs, busy: nat, m': Mem, d: nat, names: map<Name, Slot>)
    requires Struct(m, own, dirs, busy) && d in dirs && d != busy
    requires OnlyNode(m, m', d) && Sized(m') && Owned(m', own) && IsDir(m', d) && DirOk(m', d, names)
    ensures Struct(m', own, dirs[d := names], busy)
  {
    hide DirOk, FileOk, Sized, Owned;
    var dirs' := dirs[d := names];
    DirsKept(m, dirs, m', d, names);
    forall c <- dirs' | c != busy ensures DirOk(m', c, dirs'[c]) {
      if c != d { FrameOthers(m, m', d, c, dirs[c]); }
    }
    forall f: nat | IsFile(m', f) && f != busy ensures FileOk(m', f) {
      assert IsFile(m, f);
      FrameFiles(m, m', d, f);
    }
  }

  lemma DirsKept(m: Mem, dirs: Dirs, m': Mem, d: nat, names: map<Name, Slot>)
    requires forall c: nat {:trigger c in dirs} {:trigger IsDir(m, c)} :: c in dirs <==> IsDir(m, c)
    requires OnlyNode(m, m', d) && d in dirs && IsDir(m', d)
    ensures forall c: nat {:trigger c in dirs[d := names]} {:trigger IsDir(m', c)} ::
              c in dirs[d := names] <==> IsDir(m', c)
  {
    forall c: nat ensures c in dirs[d := names] <==> IsDir(m', c) {
      assert c in dirs <==> IsDir(m, c);
    }
  }

  lemma FrameOthers(m: Mem, m': Mem, d: nat, c: nat, names: map<Name, Slot>)
    requires OnlyNode(m, m', d) && c != d && Sized(m) && DirOk(m, c, names)
    ensures DirOk(m', c, names)
  {
    DirFrame(m, m', d, c, names);
  }

  lemma FrameFiles(m: Mem, m': Mem, d: nat, f: nat)
    requires OnlyNode(m, m', d) && f != d && Sized(m) && f < |m.nodes| && FileOk(m, f)
    ensures FileOk(m', f)
  {
    FileFrame(m, m', d, f);
  }

  // ----- the changes and the nodes

  function NewDirs(dirs: Dirs, x: nat, kind: Kind): Dirs {
    if kind == Dir then dirs[x := map[]] else dirs
  }

  lemma NodeAdded(m: Mem, own: map<nat, Owner>, dirs: Dirs, busy: nat, x: nat, kind: Kind)
    requires Struct(m, own, dirs, busy) && 0 < x < |m.nodes| && m.nodes[x].kind == Free && kind != Free && x != busy
    ensures var m' := WithNode(m, x, ClearNode(kind));
            Struct(m', own, NewDirs(dirs, x, kind), busy) && OnlyNode(m, m', x) && Live(m') == Live(m) + {x}
  {
    var m' := WithNode(m, x, ClearNode(kind));
    var dirs' := NewDirs(dirs, x, kind);
    hide Owned, OnlyNode, DirOk, FileOk;
    AddedOwned(m, own, x, kind);
    assert !IsDir(m, x);
    forall c: nat ensures c in dirs' <==> IsDir(m', c) {
      assert c in dirs <==> IsDir(m, c);
    }
    FreshOk(m', x, kind);
    OthersInOrder(m, m', dirs, busy, x);
  }

  lemma OthersInOrder(m: Mem, m': Mem, dirs: Dirs, busy: nat, x: nat)
    requires OnlyNode(m, m', x) && |m.blocks| < NO_BLOCK
    requires forall d <- dirs :: d != busy ==> DirOk(m, d, dirs[d])
    requires forall i: nat {:trigger IsFile(m, i)} :: IsFile(m, i) && i != busy ==> FileOk(m, i)
    ensures forall d <- dirs :: d != busy && d != x ==> DirOk(m', d, dirs[d])
    ensures forall i: nat {:trigger IsFile(m', i)} :: IsFile(m', i) && i != busy && i != x ==> FileOk(m', i)
  {
    hide DirOk, FileOk;
    forall d <- dirs | d != busy && d != x ensures DirOk(m', d, dirs[d]) { DirFrame(m, m', x, d, dirs[d]); }
    forall i: nat | IsFile(m', i) && i != busy && i != x ensures FileOk(m', i) {
      assert IsFile(m, i);
      FileFrame(m, m', x, i);
    }
  }

  lemma AddedOwned(m: Mem, own: map<nat, Owner>, x: nat, kind: Kind)
    requires Sized(m) && Owned(m, own) && 0 < x < |m.nodes| && m.nodes[x].kind == Free && kind != Free
    ensures var m' := WithNode(m, x, ClearNode(kind)); Sized(m') && Owned(m', own) && OnlyNode(m, m', x)
  {
    forall y: nat, l: nat ensures PtrAt(WithNode(m, x, ClearNode(kind)), y, l) == PtrAt(m, y, l) {}
  }

  lemma FreshOk(m: Mem, x: nat, kind: Kind)
    requires Sized(m) && x < |m.nodes| && m.nodes[x] == ClearNode(kind)
    ensures DirOk(m, x, map[]) && FileOk(m, x)
  {
    forall l: nat ensures PtrAt(m, x, l) == NO_BLOCK {}
  }

  lemma NodeDropped(m: Mem, own: map<nat, Owner>, dirs: Dirs, busy: nat, x: nat)
    requires Struct(m, own, dirs, busy) && 0 < x < |m.nodes| && m.nodes[x].kind != Free
    requires forall k: nat :: PtrAt(m, x, k) == NO_BLOCK
    ensures var m' := WithNode(m, x, FREE_NODE);
            && Struct(m', own, dirs - {x}, if busy == x then 0 else busy)
            && OnlyNode(m, m', x) && Live(m') == Live(m) - {x}
  {
    var m' := WithNode(m, x, FREE_NODE);
    var dirs' := dirs - {x};
    hide Owned, OnlyNode, DirOk, FileOk;
    DroppedOwned(m, own, x);
    DroppedKinds(m, dirs, x);
    hide Sized, IsDir, Live, WithNode;
    OthersInOrder(m, m', dirs, busy, x);
  }

  lemma DroppedKinds(m: Mem, dirs: Dirs, x: nat)
    requires forall d: nat {:trigger d in dirs} {:trigger IsDir(m, d)} :: d in dirs <==> IsDir(m, d)
    requires 0 < x < |m.nodes| && m.nodes[x].kind != Free
    ensures var m' := WithNode(m, x, FREE_NODE);
            && (forall d: nat {:trigger d in dirs} {:trigger IsDir(m', d)} :: d in dirs - {x} <==> IsDir(m', d))
            && !IsFile(m', x) && Live(m') == Live(m) - {x}
  {
    var m' := WithNode(m, x, FREE_NODE);
    forall c: nat ensures c in dirs - {x} <==> IsDir(m', c) {
      assert c in dirs <==> IsDir(m, c);
    }
  }

  lemma DroppedOwned(m: Mem, own: map<nat, Owner>, x: nat)
    requires Sized(m) && Owned(m, own) && 0 < x < |m.nodes|
    requires forall k: nat :: PtrAt(m, x, k) == NO_BLOCK
    ensures var m' := WithNode(m, x, FREE_NODE); Sized(m') && Owned(m', own) && OnlyNode(m, m', x)
  {
    forall y: nat, l: nat ensures PtrAt(WithNode(m, x, FREE_NODE), y, l) == PtrAt(m, y, l) {}
  }

  // ----- graphs of changed directories

  lemma GraphGains(dirs: Dirs, d: nat, n: Name, t: Slot)
    requires d in dirs
    ensures GraphOf(dirs[d := dirs[d][n := t]]) == AddEdge(GraphOf(dirs), d, n, t.id)
  {
    var names := dirs[d][n := t];
    var dirs' := dirs[d := names];
    assert GraphOf(dirs')[d] == AddEdge(GraphOf(dirs), d, n, t.id)[d];
    forall c <- dirs' ensures GraphOf(dirs')[c] == AddEdge(GraphOf(dirs), d, n, t.id)[c] {
      if c != d { assert dirs'[c] == dirs[c]; }
    }
  }

  lemma GraphLoses(dirs: Dirs, d: nat, n: Name)
    requires d in dirs
    ensures GraphOf(dirs[d := dirs[d] - {n}]) == CutEdge(GraphOf(dirs), d, n)
  {
    var names := dirs[d] - {n};
    var dirs' := dirs[d := names];
    assert GraphOf(dirs')[d] == CutEdge(GraphOf(dirs), d, n)[d];
    forall c <- dirs' ensures GraphOf(dirs')[c] == CutEdge(GraphOf(dirs), d, n)[c] {
      if c != d { assert dirs'[c] == dirs[c]; }
    }
  }

  lemma GraphNew(dirs: Dirs, x: nat, kind: Kind)
    requires x !in dirs
    ensures GraphOf(NewDirs(dirs, x, kind)) == if kind == Dir then GraphOf(dirs)[x := map[]] else GraphOf(dirs)
  {
  }

  lemma GraphDrop(dirs: Dirs, x: nat)
    ensures GraphOf(dirs - {x}) == GraphOf(dirs) - {x}
  {
  }
}
