// The RAM disk, its copy on the medium, the list of dirty blocks, and the allocators of psf.cpp.
module BspStore {
  import opened BspTypes
  import opened BspState

  /** Layout rules shared by the formatter and the mount check. */
  ghost predicate Fits(geo: Geometry, blocks: nat) {
    && 1 < geo.nodeStart < geo.dataStart < geo.blocks <= blocks <= MAX_RAM_BLOCKS
    && MIN_BLOCKS <= geo.blocks
    && geo.blocks - geo.dataStart <= (geo.nodeStart - 1) * BITS_PER_BLOCK
    && geo.root <= geo.dataStart - geo.nodeStart
    && geo.total == geo.blocks * BLOCK_BYTES
  }

  // Block numbers of nodes, data and bitmap words; the quantifiers of `Holds` are instantiated through them.
  function NodeBlock(geo: Geometry, id: nat): int { geo.nodeStart + id - 1 }
  function DataBlock(geo: Geometry, b: nat): nat { geo.dataStart + b }
  function BitBlock(b: nat): nat { 1 + b / BITS_PER_BLOCK }

  /** The memory is what the blocks of a disk image hold. */
  ghost predicate Holds(image: seq<Block>, geo: Geometry, m: Mem) {
    && Fits(geo, |image|)
    && image[0] == Super(geo)
    && |m.nodes| == geo.dataStart - geo.nodeStart + 1
    && |m.used| == |m.blocks| == geo.blocks - geo.dataStart
    && m.nodes[0] == FREE_NODE
    && (forall i: nat {:trigger NodeBlock(geo, i)} | 0 < i < |m.nodes| :: image[NodeBlock(geo, i)] == Inode(m.nodes[i]))
    && (forall b: nat {:trigger DataBlock(geo, b)} | b < |m.blocks| :: image[DataBlock(geo, b)] == m.blocks[b])
    && (forall c: nat {:trigger image[c]} | 1 <= c < geo.nodeStart ::
        image[c].Bits? && |image[c].bits| == BITS_PER_BLOCK)
    && (forall b: nat {:trigger BitBlock(b)} | b < |m.used| :: image[BitBlock(b)].bits[b % BITS_PER_BLOCK] == m.used[b])
  }

  class Store {
    const ram: array<Block>
    const disk: array<Block>
    const medium: nat -> bool // does the k-th transfer to or from the medium succeed?
    var transfers: nat        // transfers so far
    var geo: Geometry
    var ready: bool
    var attached: bool       // nosnik_ahci_dostepny
    var writable: bool       // zapis_trwaly_dozwolony
    var lastFlushOk: bool
    var hint: nat            // ostatni_szukany_blok_danych
    var dirty: seq<nat>      // brudne_bloki
    var dirtyAll: bool       // brudny_caly_system
    ghost var mem: Mem
    ghost var shape: Shape
    ghost var pend: set<nat> // blocks written since their last marking

    constructor (ram: array<Block>, disk: array<Block>, medium: nat -> bool)
      requires ram != disk && ram.Length == disk.Length
      ensures this.ram == ram && this.disk == disk && this.medium == medium && transfers == 0 && !ready
      ensures !attached && !writable && dirty == [] && !dirtyAll && pend == {}
    {
      this.ram := ram;
      this.disk := disk;
      this.medium, transfers := medium, 0;
      ready, attached, writable, lastFlushOk := false, false, false, true;
      hint := 0;
      dirty, dirtyAll := [], false;
      pend := {};
    }

    predicate Persistent()
      reads `attached, `writable
    {
      attached && writable
    }

    predicate Dirty(i: nat)
      reads `dirty, `dirtyAll
    {
      dirtyAll || i in dirty
    }

    /** While writing to the medium is on, a block that differs from its copy is marked or about to be. */
    ghost predicate Synced()
      reads `geo, `attached, `writable, `dirty, `dirtyAll, `pend, ram, disk
    {
      && ram != disk && ram.Length == disk.Length && geo.blocks <= ram.Length
      && |dirty| <= MAX_DIRTY && (forall i <- dirty :: i < geo.blocks)
      && (Persistent() ==>
            forall i {:trigger ram[i]} | 0 <= i < geo.blocks :: ram[i] == disk[i] || Dirty(i) || i in pend)
    }

    /** The medium served every transfer from number `from` on. */
    ghost predicate Served(from: nat)
      reads `transfers
    {
      forall k | from <= k < transfers :: medium(k)
    }

    /** The answer of a write-through that began with transfer `from`: yes exactly when writing is on and the medium
        served it, and then nothing is left to write. */
    ghost predicate Through(from: nat)
      reads `geo, `attached, `writable, `dirty, `dirtyAll, `lastFlushOk, `transfers, ram, disk
    {
      && (lastFlushOk <==> attached && writable && Served(from))
      && (lastFlushOk ==>
            && dirty == [] && !dirtyAll
            && forall i | 0 <= i < geo.blocks && i < ram.Length && i < disk.Length :: disk[i] == ram[i])
    }

    /** The arrays hold `mem`. */
    ghost predicate Ok()
      reads `ready, `geo, `attached, `writable, `dirty, `dirtyAll, `mem, `pend, ram, disk
      ensures Ok() ==>
                && ready && Sized(mem) && geo.nodeStart <= geo.dataStart <= geo.blocks
                && |mem.nodes| == geo.dataStart - geo.nodeStart + 1
                && |mem.used| == |mem.blocks| == geo.blocks - geo.dataStart
    {
      var inOrder := ready && Holds(ram[..], geo, mem) && Sized(mem) && Synced();
      inOrder
    }

    /** Between calls: a sound tree under the root, and every change marked. */
    ghost predicate Valid()
      reads this, ram, disk
      ensures Valid() <==> Ok() && pend == {} && Rooted(mem, shape, geo.root)
    {
      Ok() && pend == {} && Rooted(mem, shape, geo.root)
    }

    /** What a user sees. */
    ghost function Contents(): (v: Tree)
      reads `mem, `shape, `geo
      ensures v == TreeAt(mem, shape.dirs, geo.root)
    {
      TreeAt(mem, shape.dirs, geo.root)
    }

    function NodeCount(): nat
      reads `geo
      requires geo.nodeStart <= geo.dataStart
    {
      geo.dataStart - geo.nodeStart
    }

    function DataCount(): nat
      reads `geo
      requires geo.dataStart <= geo.blocks
    {
      geo.blocks - geo.dataStart
    }

    predicate NodeId(id: nat)
      reads this, ram, disk
      requires Ok()
      ensures NodeId(id) <==> 0 < id < |mem.nodes|
    {
      0 < id <= NodeCount()
    }

    /** `pobierz_wezel` (psf.cpp:729-778). */
    function NodeAt(id: nat): (w: Node)
      reads this, ram, disk
      requires Ok() && NodeId(id)
      ensures w == mem.nodes[id]
    {
      assert ram[..][NodeBlock(geo, id)] == Inode(mem.nodes[id]);
      ram[NodeBlock(geo, id)].node
    }

    /** `pobierz_blok_danych` (psf.cpp:832-845). */
    function DataAt(b: nat): (c: Block)
      reads this, ram, disk
      requires Ok() && b < DataCount()
      ensures c == mem.blocks[b]
    {
      assert ram[..][DataBlock(geo, b)] == mem.blocks[b];
      ram[DataBlock(geo, b)]
    }

    /** `czy_blok_danych_zajety` (psf.cpp:924-952). */
    predicate UsedAt(b: nat)
      reads this, ram, disk
      requires Ok() && b < DataCount()
      ensures UsedAt(b) <==> mem.used[b]
    {
      assert ram[..][BitBlock(b)].bits[b % BITS_PER_BLOCK] == mem.used[b];
      ram[BitBlock(b)].bits[b % BITS_PER_BLOCK]
    }

    // ----- dirty tracking (psf.cpp:431-477)

    /** `oznacz_blok_jako_brudny` (psf.cpp:441-477): listed once, and the whole system once the list is full. */
    method MarkBlock(nr: nat)
      requires Ok()
      modifies this`dirty, this`dirtyAll, this`pend
      ensures Ok() && pend == old(pend) - {nr}
      ensures nr < geo.blocks ==> Dirty(nr)
      ensures dirtyAll <==> old(dirtyAll) || (nr < geo.blocks && nr !in old(dirty) && |old(dirty)| == 256)
      ensures !dirtyAll ==> dirty == if nr >= geo.blocks || nr in old(dirty) then old(dirty) else old(dirty) + [nr]
    {
      pend := pend - {nr};
      if nr >= geo.blocks || dirtyAll { return; }
      var i := 0;
      while i < |dirty|
        invariant 0 <= i <= |dirty|
        invariant nr !in dirty[..i]
      {
        if dirty[i] == nr { return; }
        i := i + 1;
      }
      if |dirty| >= MAX_DIRTY {
        dirtyAll := true;
        dirty := [];
        return;
      }
      ghost var before := dirty;
      dirty := dirty + [nr];
      assert forall x :: x in before ==> x in dirty;
      assert dirty[|before|] == nr;
    }

    method MarkNode(id: nat)
      requires Ok() && NodeId(id)
      modifies this`dirty, this`dirtyAll, this`pend
      ensures Ok() && pend == old(pend) - {NodeBlock(geo, id)}
    {
      MarkBlock(NodeBlock(geo, id));
    }

    method MarkData(b: nat)
      requires Ok() && b < DataCount()
      modifies this`dirty, this`dirtyAll, this`pend
      ensures Ok() && pend == old(pend) - {DataBlock(geo, b)}
    {
      MarkBlock(DataBlock(geo, b));
    }

    // ----- raw writes

    method PutNode(id: nat, w: Node)
      requires Ok() && NodeId(id) && |w.ptrs| == PTRS_PER_NODE
      modifies ram, this`mem, this`pend
      ensures Ok() && mem == WithNode(old(mem), id, w)
      ensures pend == old(pend) + {NodeBlock(geo, id)}
    {
      ghost var image := ram[..];
      ram[NodeBlock(geo, id)] := Inode(w);
      mem := WithNode(mem, id, w);
      pend := pend + {NodeBlock(geo, id)};
      assert ram[..] == image[NodeBlock(geo, id) := Inode(w)];
    }

    method PutData(b: nat, c: Block)
      requires Ok() && b < DataCount() && IsData(c)
      modifies ram, this`mem, this`pend
      ensures Ok() && mem == WithBlock(old(mem), b, c)
      ensures pend == old(pend) + {DataBlock(geo, b)}
    {
      ghost var image := ram[..];
      ram[DataBlock(geo, b)] := c;
      mem := WithBlock(mem, b, c);
      pend := pend + {DataBlock(geo, b)};
      assert ram[..] == image[DataBlock(geo, b) := c];
    }

    /** `ustaw_stan_bloku_danych` (psf.cpp:954-994): writes the bit and marks its block. */
    method SetUsed(b: nat, v: bool)
      requires Ok() && b < DataCount()
      modifies ram, this`mem, this`pend, this`dirty, this`dirtyAll
      ensures Ok() && mem == WithUsed(old(mem), b, v) && pend <= old(pend)
    {
      ghost var image := ram[..];
      var c, o := BitBlock(b), b % BITS_PER_BLOCK;
      var word := Bits(ram[c].bits[o := v]);
      ram[c] := word;
      mem := WithUsed(mem, b, v);
      pend := pend + {c};
      assert ram[..] == image[c := word];
      BitWritten(image, geo, old(mem), b, v);
      MarkBlock(c);
    }

    method ClearData(b: nat)
      requires Ok() && b < DataCount()
      modifies ram, this`mem, this`pend, this`dirty, this`dirtyAll
      ensures Ok() && mem == WithBlock(old(mem), b, Blank) && pend <= old(pend)
    {
      PutData(b, Blank);
      MarkData(b);
    }

    // ----- block allocator (psf.cpp:993-1149)

    /** One pass of `zaalokuj_wolny_blok_danych` over [from, stop). */
    method TakeFirst(from: nat, stop: nat) returns (b: nat)
      requires Ok() && from <= stop <= |mem.used|
      modifies ram, this`mem, this`pend, this`dirty, this`dirtyAll, this`hint
      ensures Ok() && pend <= old(pend)
      ensures b == NO_BLOCK ==> mem == old(mem) && forall i | from <= i < stop :: mem.used[i]
      ensures b != NO_BLOCK ==>
                && from <= b < stop && !old(mem).used[b] && (forall i | from <= i < b :: old(mem).used[i])
                && mem == WithBlock(WithUsed(old(mem), b, true), b, Blank)
      ensures hint == if b == NO_BLOCK then old(hint) else if b + 1 >= |old(mem).used| then 0 else b + 1
    {
      b := from;
      while b < stop && UsedAt(b)
        invariant from <= b <= stop
        invariant forall i | from <= i < b :: mem.used[i]
      {
        b := b + 1;
      }
      if b == stop { return NO_BLOCK; }
      SetUsed(b, true);
      ClearData(b);
      hint := if b + 1 >= DataCount() then 0 else b + 1;
    }

    /** `zaalokuj_wolny_blok_danych`: next fit from the hint, wrapping once. */
    method AllocBlock() returns (b: nat)
      requires Ok()
      modifies ram, this`mem, this`pend, this`dirty, this`dirtyAll, this`hint
      ensures Ok() && pend <= old(pend)
      ensures b == NO_BLOCK ==> mem == old(mem) && forall i | 0 <= i < |mem.used| :: mem.used[i]
      ensures b != NO_BLOCK ==>
                && b < |old(mem).used| && !old(mem).used[b]
                && mem == WithBlock(WithUsed(old(mem), b, true), b, Blank)
      ensures b != NO_BLOCK ==>
                var from := if old(hint) < |old(mem).used| then old(hint) else 0;
                && (b >= from ==> forall i | from <= i < b :: old(mem).used[i])
                && (b < from ==> forall i | 0 <= i < b || from <= i < |old(mem).used| :: old(mem).used[i])
      ensures hint == if b == NO_BLOCK then old(hint) else if b + 1 >= |old(mem).used| then 0 else b + 1
    {
      var start := if hint >= DataCount() then 0 else hint;
      b := TakeFirst(start, DataCount());
      if b == NO_BLOCK {
        b := TakeFirst(0, start);
      }
    }

    /** `zwolnij_blok_danych`: zeroes and releases a used block; a free one is refused. */
    method FreeBlock(b: nat) returns (ok: bool)
      requires Ok()
      modifies ram, this`mem, this`pend, this`dirty, this`dirtyAll, this`hint
      ensures Ok() && pend <= old(pend)
      ensures ok <==> b < |old(mem).used| && old(mem).used[b]
      ensures mem == if ok then WithBlock(WithUsed(old(mem), b, false), b, Blank) else old(mem)
      ensures hint == if ok && b < old(hint) then b else old(hint)
    {
      if b >= DataCount() || !UsedAt(b) { return false; }
      ClearData(b);
      SetUsed(b, false);
      if b < hint { hint := b; }
      return true;
    }

    // ----- node allocator (psf.cpp:1155-1255)

    /** `zaalokuj_wolny_wezel`: the lowest free node, cleared. */
    method AllocNode(kind: Kind) returns (id: nat)
      requires Ok() && kind != Free
      modifies ram, this`mem, this`pend, this`dirty, this`dirtyAll
      ensures Ok() && pend <= old(pend)
      ensures id == 0 ==> mem == old(mem) && forall i | 0 < i < |mem.nodes| :: mem.nodes[i].kind != Free
      ensures id != 0 ==>
                && id < |old(mem).nodes| && old(mem).nodes[id].kind == Free
                && (forall i | 0 < i < id :: old(mem).nodes[i].kind != Free)
                && mem == WithNode(old(mem), id, ClearNode(kind))
    {
      id := 1;
      while id <= NodeCount()
        invariant 1 <= id <= NodeCount() + 1
        invariant Ok() && mem == old(mem) && pend <= old(pend)
        invariant forall i | 0 < i < id :: mem.nodes[i].kind != Free
      {
        if NodeAt(id).kind == Free {
          PutNode(id, ClearNode(kind));
          MarkNode(id);
          return;
        }
        id := id + 1;
      }
      return 0;
    }

    /** `zwolnij_wezel`. */
    method FreeNode(id: nat) returns (ok: bool)
      requires Ok()
      modifies ram, this`mem, this`pend, this`dirty, this`dirtyAll
      ensures Ok() && pend <= old(pend)
      ensures ok <==> 0 < id < |old(mem).nodes| && old(mem).nodes[id].kind != Free
      ensures mem == if ok then WithNode(old(mem), id, FREE_NODE) else old(mem)
      ensures ok ==> pend <= old(pend) - {NodeBlock(geo, id)}
    {
      if !NodeId(id) || NodeAt(id).kind == Free { return false; }
      PutNode(id, FREE_NODE);
      MarkNode(id);
      return true;
    }

    // ----- write-through (psf.cpp:479-660)

    /** One transfer to the medium: on failure its sectors hold anything. */
    method DiskWrite(lo: nat, n: nat) returns (ok: bool)
      requires ram != disk && ram.Length == disk.Length && lo + n <= disk.Length
      modifies disk, `transfers
      ensures transfers == old(transfers) + 1 && ok == medium(old(transfers))
      ensures forall i | 0 <= i < disk.Length && !(lo <= i < lo + n) :: disk[i] == old(disk[i])
      ensures ok ==> forall i | lo <= i < lo + n :: disk[i] == ram[i]
    {
      ok := medium(transfers);
      transfers := transfers + 1;
      var i := lo;
      while i < lo + n
        invariant lo <= i <= lo + n && transfers == old(transfers) + 1
        invariant forall j | 0 <= j < disk.Length && !(lo <= j < i) :: disk[j] == old(disk[j])
        invariant ok ==> forall j | lo <= j < i :: disk[j] == ram[j]
      {
        var junk: Block := *;
        disk[i] := if ok then ram[i] else junk;
        i := i + 1;
      }
    }

    /** `zapisz_sektory_porcjami` over the whole image, four blocks (32 sectors) at a time. */
    method WriteAll() returns (ok: bool)
      requires Ok()
      modifies disk, `transfers
      ensures transfers >= old(transfers) && (ok <==> Served(old(transfers)))
      ensures ok ==> forall i | 0 <= i < geo.blocks :: disk[i] == ram[i]
    {
      ok := true;
      var at := 0;
      while at < geo.blocks && ok
        invariant 0 <= at <= geo.blocks && transfers >= old(transfers) && (ok <==> Served(old(transfers)))
        invariant ok ==> forall i | 0 <= i < at :: disk[i] == ram[i]
        decreases geo.blocks - at, ok
      {
        var n := Min(4, geo.blocks - at);
        ok := DiskWrite(at, n);
        if ok { at := at + n; }
      }
    }

    /** The listed blocks, in list order, up to the first failure. */
    method WriteListed() returns (ok: bool)
      requires Ok()
      modifies disk, `transfers
      ensures transfers >= old(transfers) && (ok <==> Served(old(transfers)))
      ensures ok ==> forall i <- dirty :: i < ram.Length && disk[i] == ram[i]
      ensures forall i | 0 <= i < disk.Length && i !in dirty :: disk[i] == old(disk[i])
    {
      ok := true;
      var i := 0;
      while i < |dirty| && ok
        invariant 0 <= i <= |dirty| && transfers >= old(transfers) && (ok <==> Served(old(transfers)))
        invariant ok ==> forall k | 0 <= k < i :: dirty[k] < ram.Length && disk[dirty[k]] == ram[dirty[k]]
        invariant forall j | 0 <= j < disk.Length && j !in dirty :: disk[j] == old(disk[j])
        decreases |dirty| - i, ok
      {
        assert dirty[i] in dirty;
        ok := DiskWrite(dirty[i], 1);
        if ok { i := i + 1; }
      }
    }

    /** `bsp_zapisz_zmiany`: writes every marked block, or the whole system once the list overflowed. */
    method Flush() returns (ok: bool)
      requires Ok() && pend == {}
      modifies disk, this`dirty, this`dirtyAll, this`lastFlushOk, this`transfers
      ensures Ok() && lastFlushOk == ok && transfers >= old(transfers)
      ensures ok <==> attached && writable && Served(old(transfers))
      ensures ok ==> dirty == [] && !dirtyAll && disk[..geo.blocks] == ram[..geo.blocks]
      ensures !(attached && writable) ==> !ok && disk[..] == old(disk[..]) && dirty == [] && !dirtyAll
      ensures Through(old(transfers))
      ensures forall i | 0 <= i < disk.Length && !old(Dirty(i)) :: disk[i] == old(disk[i])
    {
      if !Persistent() {
        dirty, dirtyAll := [], false;
        lastFlushOk := false;
        return false;
      }
      if !dirtyAll && |dirty| == 0 {
        lastFlushOk := true;
        return true;
      }
      if dirtyAll {
        ok := WriteAll();
      } else {
        ok := WriteListed();
      }
      if ok {
        dirty, dirtyAll := [], false;
      }
      lastFlushOk := ok;
    }
  }

  lemma TwoArrays(s: Store)
    requires s.Ok()
    ensures s.ram != s.disk
  {
  }

  lemma BitWritten(image: seq<Block>, geo: Geometry, m: Mem, b: nat, v: bool)
    requires Holds(image, geo, m) && b < |m.used|
    ensures BitBlock(b) < |image|
    ensures var c := BitBlock(b);
            image[c].Bits? && b % BITS_PER_BLOCK < |image[c].bits|
    ensures var c := BitBlock(b);
            Holds(image[c := Bits(image[c].bits[b % BITS_PER_BLOCK := v])], geo, WithUsed(m, b, v))
  {
    var c := BitBlock(b);
    var image' := image[c := Bits(image[c].bits[b % BITS_PER_BLOCK := v])];
    var m' := WithUsed(m, b, v);
    forall y | 0 <= y < |m'.used|
      ensures image'[BitBlock(y)].bits[y % BITS_PER_BLOCK] == m'.used[y]
    {
      assert image[BitBlock(y)].bits[y % BITS_PER_BLOCK] == m.used[y];
      if y != b && y / BITS_PER_BLOCK == b / BITS_PER_BLOCK {
        assert y % BITS_PER_BLOCK != b % BITS_PER_BLOCK;
      }
    }
  }
}
