// The BSP2 disk format (psf.h) and the typed blocks the RAM disk is made of.
module BspTypes {
  const BLOCK_BYTES: nat := 4096
  const NAME_FIELD: nat := 56
  const PTRS_PER_NODE: nat := 490
  const ENTRIES_PER_BLOCK: nat := 64
  const BITS_PER_BLOCK: nat := 32768
  const PATH_LIMIT: nat := 512
  const MAX_DIRTY: nat := 256
  const MIN_BLOCKS: nat := 10
  const COPY_DEPTH: nat := 32
  const MAX_FILE_BYTES: nat := PTRS_PER_NODE * BLOCK_BYTES
  const LOADER_LIMIT: nat := 512 * 1024
  const MAX_RAM_BLOCKS: nat := 0xF_FFFF
  const NO_BLOCK: nat := 0xFFFF_FFFF_FFFF_FFFF
  const SLASH: Byte := 47
  const BACKSLASH: Byte := 92
  const DOT: Byte := 46

  type Byte = b: int | 0 <= b < 256
  type Name = seq<Byte>

  /** A NUL-terminated argument, without its NUL. */
  type CString = s: seq<Byte> | 0 !in s

  datatype Kind = Free | File | Dir

  /** An index node: `size` is a file's length in bytes or a directory's entry count. */
  datatype Node = Node(kind: Kind, size: nat, ptrs: seq<nat>)

  /** A directory entry; id 0 marks an empty slot. */
  datatype Entry = Entry(id: nat, name: Name)

  datatype Geometry = Geometry(total: nat, blocks: nat, root: nat, nodeStart: nat, dataStart: nat)

  /** One 4 KiB block, typed by its use. A zeroed data block is `Blank`, whoever reads it. */
  datatype Block =
    | Super(geo: Geometry)
    | Bits(bits: seq<bool>)
    | Inode(node: Node)
    | Blank
    | Bytes(bytes: seq<Byte>)
    | Entries(entries: seq<Entry>)

  const EMPTY_ENTRY := Entry(0, [])

  /** `wyzeruj_wezel`: a cleared node of the given kind. */
  function ClearNode(kind: Kind): Node {
    Node(kind, 0, seq(PTRS_PER_NODE, _ => NO_BLOCK))
  }

  const FREE_NODE := ClearNode(Free)

  /** A data block read as a directory block. */
  function EntriesOf(b: Block): seq<Entry> {
    if b.Entries? then b.entries else seq(ENTRIES_PER_BLOCK, _ => EMPTY_ENTRY)
  }

  /** A data block read as file bytes. */
  function BytesOf(b: Block): seq<Byte> {
    if b.Bytes? then b.bytes else seq(BLOCK_BYTES, _ => 0)
  }

  function CeilDiv(a: nat, b: nat): nat
    requires b > 0
  {
    a / b + (if a % b != 0 then 1 else 0)
  }

  function Below(bound: nat): (s: set<nat>)
    ensures forall i: nat :: i in s <==> i < bound
  {
    if bound == 0 then {} else Below(bound - 1) + {bound - 1}
  }

  function Min(a: nat, b: nat): nat {
    if a < b then a else b
  }

  // ----- counting

  lemma {:induction false} ImageSize(names: set<Name>, f: map<Name, nat>)
    requires names <= f.Keys && forall n, q | n in names && q in names && f[n] == f[q] :: n == q
    ensures |set n | n in names :: f[n]| == |names|
  {
    if names != {} {
      var n :| n in names;
      var rest := names - {n};
      ImageSize(rest, f);
      assert (set q | q in names :: f[q]) == (set q | q in rest :: f[q]) + {f[n]};
      assert f[n] !in (set q | q in rest :: f[q]);
    }
  }

  lemma Subset<T>(a: set<T>, b: set<T>)
    requires a <= b
    ensures |a| <= |b|
  {
    assert b == a + (b - a);
  }

  lemma {:induction false} BelowSize(bound: nat)
    ensures |Below(bound)| == bound
  {
    if bound > 0 { BelowSize(bound - 1); }
  }
}
