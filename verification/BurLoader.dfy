// Loading a .bur image (loader.cpp:170-200, 389-616, 847-914): which headers are accepted, and what
// the new process then finds in its memory.
module BurLoader {
  import opened LittleEndian

  const PAGE: nat := 4096
  const HEADER_BYTES: nat := 60
  const MIN_ADDRESS: nat := 0x1000
  const HEAP_BASE: nat := 0x8_0000_0000
  const USER_END: nat := 0x8000_0000_0000
  const STACK_BASE: nat := 0x7FFF_F000_0000
  const STACK_PAGES: nat := 4
  const STACK_BYTES: nat := STACK_PAGES * PAGE
  const MAX_SEGMENT: nat := 256 * 1024 * 1024
  const WORD_LIMIT: nat := 0x1_0000_0000_0000_0000

  /** `NaglowekBur`. */
  datatype Header = Header(magic: seq<Byte>, entry: nat,
                           textOffset: nat, textSize: nat, textAddress: nat,
                           dataOffset: nat, dataSize: nat, dataAddress: nat)

  const MAGIC: seq<Byte> := [66, 85, 82, 0]

  function HeaderOf(file: seq<Byte>): Header
    requires |file| >= HEADER_BYTES
  {
    Header(file[..4], U64(file, 4), U64(file, 12), U64(file, 20), U64(file, 28), U64(file, 36), U64(file, 44),
        U64(file, 52))
  }

  function Min(a: nat, b: nat): nat {
    if a < b then a else b
  }

  /** An image as the tool chain writes it, field by field (loader.h:50-80). */
  function Image(h: Header, rest: seq<Byte>): seq<Byte> {
    [66, 85, 82, 0] + (Long(h.entry)
    + (Long(h.textOffset) + (Long(h.textSize) + (Long(h.textAddress)
    + (Long(h.dataOffset) + (Long(h.dataSize) + (Long(h.dataAddress)
    + rest)))))))
  }

  ghost predicate Fields(h: Header) {
    && h.magic == [66, 85, 82, 0] && h.entry < 0x1_0000_0000_0000_0000
    && h.textOffset < 0x1_0000_0000_0000_0000 && h.textSize < 0x1_0000_0000_0000_0000
    && h.textAddress < 0x1_0000_0000_0000_0000 && h.dataOffset < 0x1_0000_0000_0000_0000
    && h.dataSize < 0x1_0000_0000_0000_0000 && h.dataAddress < 0x1_0000_0000_0000_0000
  }

  /** The header read is the header written. */
  lemma HeaderRead(h: Header, rest: seq<Byte>)
    requires Fields(h)
    ensures var file := Image(h, rest); |file| >= HEADER_BYTES && HeaderOf(file) == h && file[60..] == rest
  {
    hide Long, U64, Stands;
    var file := Image(h, rest);
    var after6 := Long(h.dataAddress) + rest;
    var after5 := Long(h.dataSize) + after6;
    var after4 := Long(h.dataOffset) + after5;
    var after3 := Long(h.textAddress) + after4;
    var after2 := Long(h.textSize) + after3;
    var after1 := Long(h.textOffset) + after2;
    StandsAll(file);
    StandsBoth(file, 0, [66, 85, 82, 0], Long(h.entry) + after1);
    FieldRead(file, 4, h.entry, after1);
    FieldRead(file, 12, h.textOffset, after2);
    FieldRead(file, 20, h.textSize, after3);
    FieldRead(file, 28, h.textAddress, after4);
    FieldRead(file, 36, h.dataOffset, after5);
    FieldRead(file, 44, h.dataSize, after6);
    FieldRead(file, 52, h.dataAddress, rest);
  }

  lemma FieldRead(file: seq<Byte>, at: nat, n: nat, rest: seq<Byte>)
    requires Stands(file, at, Long(n) + rest) && n < 0x1_0000_0000_0000_0000
    ensures at + 8 <= |file| && Stands(file, at + 8, rest) && U64(file, at) == n
  {
    hide Long, U64, Stands;
    StandsBoth(file, at, Long(n), rest);
    StandsInside(file, at, Long(n));
    LongRead(file, at, n);
  }

  // ----- the header check

  /** `zakres_w_przedziale`. */
  predicate InWindow(start: nat, size: nat, lo: nat, hi: nat) {
    size != 0 && lo <= start && start + size <= hi
  }

  /** `zakresy_nachodza`. */
  predicate Overlap(a: nat, aEnd: nat, b: nat, bEnd: nat) {
    a < bEnd && b < aEnd
  }

  /** The data bytes the file still holds; the rest of the segment is zero. */
  function DataInFile(h: Header, size: nat): nat {
    if h.dataSize == 0 || h.dataOffset > size then 0 else Min(h.dataSize, size - h.dataOffset)
  }

  /** What an image must promise to be loaded. */
  ghost predicate Accepted(h: Header, size: nat) {
    && h.magic == [66, 85, 82, 0]
    && 0 < h.textSize <= 0x1000_0000 && h.dataSize <= 0x1000_0000
    && h.textAddress % 4096 == 0 && (h.dataSize != 0 ==> h.dataAddress % 4096 == 0)
    && 60 <= h.textOffset && h.textOffset + h.textSize <= size
    && 0x1000 <= h.textAddress && h.textAddress + h.textSize <= 0x8_0000_0000
    && (h.dataSize != 0 ==>
          && 60 <= h.dataOffset <= size
          && 0x1000 <= h.dataAddress && h.dataAddress + h.dataSize <= 0x8_0000_0000
          && (h.textAddress + h.textSize <= h.dataAddress || h.dataAddress + h.dataSize <= h.textAddress)
          && (h.dataOffset == size || h.textOffset + h.textSize <= h.dataOffset
              || h.dataOffset + h.dataSize <= h.textOffset))
    && h.textAddress <= h.entry < h.textAddress + h.textSize
  }

  /** `poprawny_naglowek_bur` (loader.cpp:389-540). */
  method CheckHeader(h: Header, size: nat) returns (ok: bool)
    requires |h.magic| == 4 && size < WORD_LIMIT
    ensures ok <==> Accepted(h, size)
  {
    if h.magic != MAGIC { return false; }
    if h.textSize == 0 || h.textSize > MAX_SEGMENT || h.dataSize > MAX_SEGMENT { return false; }
    if h.textAddress % PAGE != 0 { return false; }
    if h.dataSize != 0 && h.dataAddress % PAGE != 0 { return false; }
    if h.textOffset < HEADER_BYTES || h.textOffset > size { return false; }
    var textFileEnd := h.textOffset + h.textSize;
    if textFileEnd >= WORD_LIMIT || textFileEnd > size { return false; }
    if h.dataSize != 0 {
      if h.dataOffset < HEADER_BYTES || h.dataOffset > size { return false; }
    }
    if !InWindow(h.textAddress, h.textSize, MIN_ADDRESS, HEAP_BASE) { return false; }
    var textEnd := h.textAddress + h.textSize;
    if h.dataSize != 0 {
      if !InWindow(h.dataAddress, h.dataSize, MIN_ADDRESS, HEAP_BASE) { return false; }
      if Overlap(h.textAddress, textEnd, h.dataAddress, h.dataAddress + h.dataSize) { return false; }
      var inFile := if h.dataSize < size - h.dataOffset then h.dataSize else size - h.dataOffset;
      if inFile != 0 {
        if Overlap(h.textOffset, textFileEnd, h.dataOffset, h.dataOffset + inFile) { return false; }
      }
    }
    if h.entry < h.textAddress || h.entry >= textEnd { return false; }
    ok := true;
  }

  // ----- pages

  function PageCount(size: nat): nat {
    (size + PAGE - 1) / PAGE
  }

  /** Page `p` is one of those a segment takes up. */
  predicate OnPage(p: nat, address: nat, size: nat) {
    address / PAGE <= p < address / PAGE + PageCount(size)
  }

  /** No page belongs to both segments. */
  ghost predicate Apart(a: nat, aSize: nat, b: nat, bSize: nat) {
    forall p: nat {:trigger OnPage(p, a, aSize)} {:trigger OnPage(p, b, bSize)} ::
        !(OnPage(p, a, aSize) && OnPage(p, b, bSize))
  }

  /** Aligned segments that share no byte share no page. */
  lemma SegmentsApart(a: nat, aSize: nat, b: nat, bSize: nat)
    requires a % PAGE == 0 && b % PAGE == 0 && a + aSize <= b
    ensures Apart(a, aSize, b, bSize) && Apart(b, bSize, a, aSize)
  {
    assert (a + aSize + PAGE - 1) / PAGE == a / PAGE + PageCount(aSize);
    assert b / PAGE * PAGE == b;
  }

  /** In an accepted image no page belongs to two of code, data and stack. */
  lemma PagesApart(h: Header, size: nat)
    requires Accepted(h, size)
    ensures Apart(h.textAddress, h.textSize, h.dataAddress, h.dataSize)
    ensures Apart(h.textAddress, h.textSize, STACK_BASE, STACK_BYTES)
    ensures Apart(h.dataAddress, h.dataSize, STACK_BASE, STACK_BYTES)
  {
    SegmentsApart(h.textAddress, h.textSize, STACK_BASE, STACK_BYTES);
    if h.dataSize != 0 {
      SegmentsApart(h.dataAddress, h.dataSize, STACK_BASE, STACK_BYTES);
      if h.textAddress + h.textSize <= h.dataAddress {
        SegmentsApart(h.textAddress, h.textSize, h.dataAddress, h.dataSize);
      } else {
        SegmentsApart(h.dataAddress, h.dataSize, h.textAddress, h.textSize);
      }
    }
  }

  // ----- the new address space

  datatype Mapping = Mapping(frame: nat, writable: bool)

  /** Byte `k` of page `i` of a segment whose file part is `bytes`. */
  function SegmentByte(bytes: seq<Byte>, i: nat, k: nat): Byte {
    if i * PAGE + k < |bytes| then bytes[i * PAGE + k] else 0
  }

  class AddressSpace {
    var pages: map<nat, Mapping>        // user pages of the new PML4
    var frames: map<nat, seq<Byte>>     // the physical frames behind them
    ghost var starved: bool             // a frame was asked for and there was none

    constructor ()
      ensures pages == map[] && frames == map[] && !starved && Valid()
    {
      pages, frames, starved := map[], map[], false;
    }

    /** Every mapped page has a frame of its own. */
    ghost predicate Valid()
      reads this
    {
      && (forall p <- pages :: pages[p].frame in frames && |frames[pages[p].frame]| == PAGE)
      && (forall p, q | p in pages && q in pages && pages[p].frame == pages[q].frame :: p == q)
    }

    /** `ZaalokujRamke`: no frame, or one nobody else has. */
    method AllocFrame() returns (ok: bool, frame: nat)
      requires Valid()
      modifies this`frames, this`starved
      ensures starved == (old(starved) || !ok)
      ensures Valid() && (forall f <- old(frames) :: f in frames && frames[f] == old(frames)[f])
      ensures ok ==> frame !in old(frames) && frames.Keys == old(frames).Keys + {frame} && |frames[frame]| == PAGE
      ensures !ok ==> frames == old(frames)
    {
      ok := *;
      frame := *;
      if frame in frames { ok := false; }
      starved := starved || !ok;
      if !ok { return; }
      var dirt: seq<Byte> := *;
      if |dirt| != PAGE { dirt := seq(PAGE, _ => 0); }
      frames := frames[frame := dirt];
    }

    /** Zeroes a frame and copies a part of the segment into it. */
    method FillFrame(frame: nat, bytes: seq<Byte>, from: nat)
      requires frame in frames && |frames[frame]| == PAGE
      modifies this`frames
      ensures frames.Keys == old(frames).Keys && forall f <- frames :: f != frame ==> frames[f] == old(frames)[f]
      ensures |frames[frame]| == PAGE && forall k | 0 <= k < PAGE ::
              frames[frame][k] == if from + k < |bytes| then bytes[from + k] else 0
    {
      var zeros := seq(PAGE, _ => 0);
      frames := frames[frame := zeros];
      if from < |bytes| {
        var n := if |bytes| - from < PAGE then |bytes| - from else PAGE;
        frames := frames[frame := bytes[from..from + n] + zeros[n..]];
      }
    }

    /** One page of `mapuj_segment_z_pliku`: its contents are written before it is mapped. */
    method MapPage(address: nat, i: nat, bytes: seq<Byte>, writable: bool) returns (ok: bool)
      requires Valid() && address / PAGE + i !in pages
      modifies this
      ensures Valid() && Keeps(old(pages), old(frames), pages, frames)
      ensures starved == (old(starved) || !ok)
      ensures ok ==>
                pages.Keys == old(pages).Keys + {address / PAGE + i}
                && PageHolds(pages, frames, address, i, bytes, writable)
      ensures !ok ==> pages == old(pages)
    {
      var frame: nat;
      ok, frame := AllocFrame();
      if !ok { return; }
      FillFrame(frame, bytes, i * PAGE);
      pages := pages[address / PAGE + i := Mapping(frame, writable)];
    }

    /** `mapuj_segment_z_pliku` (loader.cpp:542-596); with no bytes, `mapuj_stos_uzytkownika` (602-623). */
    method MapSegment(address: nat, size: nat, bytes: seq<Byte>, writable: bool) returns (ok: bool)
      requires Valid() && address % PAGE == 0 && |bytes| <= size
      requires forall p: nat | OnPage(p, address, size) :: p !in pages
      modifies this
      ensures Valid() && Keeps(old(pages), old(frames), pages, frames)
      ensures starved == (old(starved) || !ok)
      ensures ok ==> forall p: nat {:trigger p in pages} {:trigger OnPage(p, address, size)} ::
                p in pages <==> p in old(pages) || OnPage(p, address, size)
      ensures ok ==> SegmentHolds(pages, frames, address, PageCount(size), bytes, writable)
    {
      ok := true;
      var i := 0;
      while i * PAGE < size && ok
        invariant Valid() && Keeps(old(pages), old(frames), pages, frames) && i <= PageCount(size)
        invariant starved == (old(starved) || !ok)
        invariant ok ==> forall p: nat {:trigger p in pages} ::
                    p in pages <==> p in old(pages) || address / PAGE <= p < address / PAGE + i
        invariant ok ==> SegmentHolds(pages, frames, address, i, bytes, writable)
        decreases PageCount(size) - i, ok
      {
        assert OnPage(address / PAGE + i, address, size);
        ghost var p0, f0 := pages, frames;
        ok := MapPage(address, i, bytes, writable);
        if ok {
          SegmentKept(p0, f0, pages, frames, address, i, bytes, writable);
          i := i + 1;
        }
      }
    }

    /** The mapping section of `uruchom_program_z_pliku_impl` (loader.cpp:847-914), on a new address space. */
    method LoadImage(h: Header, file: seq<Byte>) returns (ok: bool)
      requires Valid() && pages == map[] && !starved && Accepted(h, |file|)
      modifies this
      ensures Valid() && (ok <==> !starved)
      ensures ok ==> Loaded(pages, frames, h, file)
    {
      hide SegmentHolds, Accepted, OnPage, Loaded, Valid;
      PagesApart(h, |file|);
      AcceptedFacts(h, |file|);
      ok := MapSegment(h.textAddress, h.textSize, file[h.textOffset..h.textOffset + h.textSize], false);
      ghost var p1, f1 := pages, frames;
      if ok && h.dataSize != 0 {
        var inFile := if h.dataSize < |file| - h.dataOffset then h.dataSize else |file| - h.dataOffset;
        ok := MapSegment(h.dataAddress, h.dataSize, file[h.dataOffset..h.dataOffset + inFile], true);
      }
      if !ok { return; }
      ghost var p2, f2 := pages, frames;
      KeptSelf(p1, f1);
      SegmentKept(p1, f1, p2, f2, h.textAddress, PageCount(h.textSize), TextBytes(h, file), false);
      ok := MapSegment(STACK_BASE, STACK_BYTES, [], true);
      if !ok { return; }
      SegmentKept(p2, f2, pages, frames, h.textAddress, PageCount(h.textSize), TextBytes(h, file), false);
      if h.dataSize != 0 {
        SegmentKept(p2, f2, pages, frames, h.dataAddress, PageCount(h.dataSize), DataBytes(h, file), true);
      }
      IsLoaded(pages, frames, h, file);
    }
  }

  lemma KeptSelf(p: map<nat, Mapping>, f: map<nat, seq<Byte>>)
    ensures Keeps(p, f, p, f)
  {
  }

  lemma AcceptedFacts(h: Header, size: nat)
    requires Accepted(h, size)
    ensures h.textAddress % PAGE == 0 && h.textOffset + h.textSize <= size
    ensures h.dataSize != 0 ==> h.dataAddress % PAGE == 0 && h.dataOffset <= size
    ensures h.dataSize == 0 ==> forall p: nat :: !OnPage(p, h.dataAddress, h.dataSize)
  {
  }

  lemma IsLoaded(pages: map<nat, Mapping>, frames: map<nat, seq<Byte>>, h: Header, file: seq<Byte>)
    requires Accepted(h, |file|)
    requires SegmentHolds(pages, frames, h.textAddress, PageCount(h.textSize), TextBytes(h, file), false)
    requires h.dataSize != 0
             ==> SegmentHolds(pages, frames, h.dataAddress, PageCount(h.dataSize), DataBytes(h, file), true)
    requires SegmentHolds(pages, frames, STACK_BASE, STACK_PAGES, [], true)
    requires forall p: nat {:trigger p in pages} :: p in pages <==>
               || OnPage(p, h.textAddress, h.textSize) || OnPage(p, h.dataAddress, h.dataSize)
               || OnPage(p, STACK_BASE, STACK_BYTES)
    ensures Loaded(pages, frames, h, file)
  {
    hide SegmentHolds, OnPage;
  }

  /** Page `address/PAGE + i` holds page `i` of the segment, in a frame of its own. */
  ghost predicate PageHolds(pages: map<nat, Mapping>, frames: map<nat, seq<Byte>>, address: nat, i: nat,
      bytes: seq<Byte>, writable: bool) {
    && address / PAGE + i in pages && pages[address / PAGE + i].writable == writable
    && pages[address / PAGE + i].frame in frames && |frames[pages[address / PAGE + i].frame]| == PAGE
    && forall k | 0 <= k < PAGE :: frames[pages[address / PAGE + i].frame][k] == SegmentByte(bytes, i, k)
  }

  ghost predicate SegmentHolds(pages: map<nat, Mapping>, frames: map<nat, seq<Byte>>, address: nat, n: nat,
      bytes: seq<Byte>, writable: bool) {
    forall i: nat {:trigger PageHolds(pages, frames, address, i, bytes, writable)} | i < n ::
        PageHolds(pages, frames, address, i, bytes, writable)
  }

  /** Pages and frames of before are as they were. */
  ghost predicate Keeps(p0: map<nat, Mapping>, f0: map<nat, seq<Byte>>, p1: map<nat, Mapping>, f1: map<nat,
      seq<Byte>>) {
    && (forall p <- p0 :: p in p1 && p1[p] == p0[p])
    && (forall f <- f0 :: f in f1 && f1[f] == f0[f])
  }

  lemma SegmentKept(p0: map<nat, Mapping>, f0: map<nat, seq<Byte>>, p1: map<nat, Mapping>, f1: map<nat, seq<Byte>>,
                    address: nat, n: nat, bytes: seq<Byte>, writable: bool)
    requires Keeps(p0, f0, p1, f1) && SegmentHolds(p0, f0, address, n, bytes, writable)
    ensures SegmentHolds(p1, f1, address, n, bytes, writable)
  {
    forall i: nat | i < n ensures PageHolds(p1, f1, address, i, bytes, writable) {
      assert PageHolds(p0, f0, address, i, bytes, writable);
    }
  }

  // ----- what the process finds

  function TextBytes(h: Header, file: seq<Byte>): seq<Byte>
    requires h.textOffset + h.textSize <= |file|
  {
    file[h.textOffset..h.textOffset + h.textSize]
  }

  function DataBytes(h: Header, file: seq<Byte>): seq<Byte>
    requires h.dataSize != 0 ==> h.dataOffset <= |file|
  {
    if h.dataSize == 0 then [] else file[h.dataOffset..h.dataOffset + DataInFile(h, |file|)]
  }

  /** Code, data and stack, page by page, and nothing else. */
  ghost predicate Loaded(pages: map<nat, Mapping>, frames: map<nat, seq<Byte>>, h: Header, file: seq<Byte>)
    requires Accepted(h, |file|)
  {
    && SegmentHolds(pages, frames, h.textAddress, PageCount(h.textSize), TextBytes(h, file), false)
    && (h.dataSize != 0 ==> SegmentHolds(pages, frames, h.dataAddress, PageCount(h.dataSize), DataBytes(h, file), true))
    && SegmentHolds(pages, frames, STACK_BASE, STACK_PAGES, [], true)
    && forall p: nat {:trigger p in pages} :: p in pages <==>
         || OnPage(p, h.textAddress, h.textSize) || OnPage(p, h.dataAddress, h.dataSize)
         || OnPage(p, STACK_BASE, STACK_BYTES)
  }

  /** The byte at a virtual address. */
  ghost function ByteAt(pages: map<nat, Mapping>, frames: map<nat, seq<Byte>>, address: nat): int {
    if address / PAGE in pages && pages[address / PAGE].frame in frames
       && address % PAGE < |frames[pages[address / PAGE].frame]|
    then frames[pages[address / PAGE].frame][address % PAGE] else -1
  }

  ghost predicate Writable(pages: map<nat, Mapping>, address: nat) {
    address / 4096 in pages && pages[address / 4096].writable
  }

  /** A segment, read byte by byte: the file's bytes, then zeros to the end of its last page. */
  lemma SegmentReads(pages: map<nat, Mapping>, frames: map<nat, seq<Byte>>, address: nat, size: nat, bytes: seq<Byte>,
      writable: bool, o: nat)
    requires address % PAGE == 0 && SegmentHolds(pages, frames, address, PageCount(size), bytes, writable)
    requires o < PageCount(size) * PAGE
    ensures ByteAt(pages, frames, address + o) == if o < |bytes| then bytes[o] else 0
    ensures (address + o) / PAGE in pages && pages[(address + o) / PAGE].writable == writable
  {
    var i, k := o / PAGE, o % PAGE;
    assert i * PAGE + k == o;
    assert PageHolds(pages, frames, address, i, bytes, writable);
    assert frames[pages[address / PAGE + i].frame][k] == SegmentByte(bytes, i, k);
    assert (address + o) / PAGE == address / PAGE + i && (address + o) % PAGE == k;
  }

  /** What a loaded program sees: its code, its data followed by zeros to the end of the segment's last page,
      a zeroed stack; it starts inside its code, which it cannot write. */
  lemma ProcessSees(pages: map<nat, Mapping>, frames: map<nat, seq<Byte>>, h: Header, file: seq<Byte>, o: nat)
    requires Accepted(h, |file|) && Loaded(pages, frames, h, file)
    ensures o < h.textSize ==> ByteAt(pages, frames, h.textAddress + o) == file[h.textOffset + o]
    ensures o < h.dataSize && h.dataOffset + o < |file|
            ==> ByteAt(pages, frames, h.dataAddress + o) == file[h.dataOffset + o]
    ensures (o >= h.dataSize || h.dataOffset + o >= |file|) && o < (h.dataSize + 4095) / 4096 * 4096
            ==> ByteAt(pages, frames, h.dataAddress + o) == 0
    ensures o < h.dataSize ==> Writable(pages, h.dataAddress + o)
    ensures o < 4 * 4096 ==>
              ByteAt(pages, frames, 0x7FFF_F000_0000 + o) == 0 && Writable(pages, 0x7FFF_F000_0000 + o)
    ensures h.entry / 4096 in pages && !pages[h.entry / 4096].writable
    ensures ByteAt(pages, frames, h.entry) == file[h.textOffset + (h.entry - h.textAddress)]
  {
    hide *;
    DataSees(pages, frames, h, file, o);
    StackSees(pages, frames, h, file, o);
    EntryInside(h, |file|);
    TextSees(pages, frames, h, file, o);
    TextSees(pages, frames, h, file, h.entry - h.textAddress);
  }

  lemma EntryInside(h: Header, size: nat)
    requires Accepted(h, size)
    ensures h.textAddress <= h.entry < h.textAddress + h.textSize
  {
  }

  lemma TextSees(pages: map<nat, Mapping>, frames: map<nat, seq<Byte>>, h: Header, file: seq<Byte>, o: nat)
    requires Accepted(h, |file|) && Loaded(pages, frames, h, file)
    ensures o < h.textSize ==>
              && h.textOffset + o < |file| && ByteAt(pages, frames, h.textAddress + o) == file[h.textOffset + o]
              && (h.textAddress + o) / 4096 in pages && !pages[(h.textAddress + o) / 4096].writable
  {
    AcceptedFacts(h, |file|);
    hide SegmentHolds, ByteAt, Accepted, OnPage;
    WholePages(h.textSize);
    if o < h.textSize { SegmentReads(pages, frames, h.textAddress, h.textSize, TextBytes(h, file), false, o); }
  }

  lemma StackSees(pages: map<nat, Mapping>, frames: map<nat, seq<Byte>>, h: Header, file: seq<Byte>, o: nat)
    requires Accepted(h, |file|) && Loaded(pages, frames, h, file)
    ensures o < 4 * 4096 ==>
              ByteAt(pages, frames, 0x7FFF_F000_0000 + o) == 0 && Writable(pages, 0x7FFF_F000_0000 + o)
  {
    hide SegmentHolds, ByteAt, Accepted, OnPage;
    if o < STACK_BYTES { SegmentReads(pages, frames, STACK_BASE, STACK_BYTES, [], true, o); }
  }

  lemma DataSees(pages: map<nat, Mapping>, frames: map<nat, seq<Byte>>, h: Header, file: seq<Byte>, o: nat)
    requires Accepted(h, |file|) && Loaded(pages, frames, h, file)
    ensures o < h.dataSize && h.dataOffset + o < |file|
            ==> ByteAt(pages, frames, h.dataAddress + o) == file[h.dataOffset + o]
    ensures (o >= h.dataSize || h.dataOffset + o >= |file|) && o < (h.dataSize + 4095) / 4096 * 4096
            ==> ByteAt(pages, frames, h.dataAddress + o) == 0
    ensures o < h.dataSize ==> Writable(pages, h.dataAddress + o)
  {
    AcceptedFacts(h, |file|);
    hide SegmentHolds, ByteAt, Accepted, OnPage;
    WholePages(h.dataSize);
    if o < PageCount(h.dataSize) * PAGE {
      SegmentReads(pages, frames, h.dataAddress, h.dataSize, DataBytes(h, file), true, o);
    }
  }

  lemma WholePages(size: nat)
    ensures size <= PageCount(size) * PAGE && (size == 0 ==> PageCount(size) == 0)
  {
  }

  /** The loading part of `uruchom_program_z_pliku_impl` (loader.cpp:745-914), from the file's bytes on. */
  method Load(file: seq<Byte>) returns (ok: bool, space: AddressSpace)
    requires |file| < WORD_LIMIT
    ensures ok <==> |file| >= HEADER_BYTES && Accepted(HeaderOf(file), |file|) && !space.starved
    ensures ok ==> Loaded(space.pages, space.frames, HeaderOf(file), file)
    ensures forall h: Header, rest: seq<Byte> {:trigger Image(h, rest)} :: Fields(h) && file == Image(h, rest) ==>
              (ok <==> Accepted(h, |file|) && !space.starved) && (ok ==> Loaded(space.pages, space.frames, h, file))
  {
    hide U64, Accepted, Loaded, Image, Fields;
    forall h: Header, rest: seq<Byte> | Fields(h)
      ensures |Image(h, rest)| >= HEADER_BYTES && HeaderOf(Image(h, rest)) == h
    {
      HeaderRead(h, rest);
    }
    space := new AddressSpace();
    if |file| < HEADER_BYTES { return false, space; }
    var h := HeaderOf(file);
    ok := CheckHeader(h, |file|);
    if ok { ok := space.LoadImage(h, file); }
  }
}
