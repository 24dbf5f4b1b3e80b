// The packed bitmaps of pmm.cpp: one bit a frame, eight to a byte, as sets of frame numbers.
module PmmBits {
  const FRAME: nat := 4096
  const MAX_FRAMES: nat := 0x10_0000
  const MAP_BYTES: nat := MAX_FRAMES / 8

  /** `maska_bitu` (pmm.cpp:249-256). */
  function Mask(f: nat): bv8 {
    (1 as bv8) << (f % 8)
  }

  /** `bit_ustawiony` (pmm.cpp:258-269). */
  predicate Bit(m: seq<bv8>, f: nat)
    requires |m| == MAP_BYTES
  {
    f < MAX_FRAMES && m[f / 8] & Mask(f) != 0
  }

  ghost predicate IsFrame(m: seq<bv8>, f: nat) {
    |m| == MAP_BYTES && Bit(m, f)
  }

  /** The frames whose bit is set. */
  ghost function Frames(m: seq<bv8>): iset<nat> {
    iset f: nat | IsFrame(m, f)
  }

  lemma MasksApart(f: nat, g: nat)
    ensures Mask(f) != 0
    ensures f % 8 != g % 8 ==> Mask(f) & Mask(g) == 0
    ensures f % 8 == g % 8 ==> Mask(f) == Mask(g)
  {
    SmallMasks(f % 8, g % 8);
    assert Mask(f) == Mask(f % 8) && Mask(g) == Mask(g % 8);
  }

  lemma SmallMasks(a: nat, b: nat)
    requires a < 8 && b < 8
    ensures Mask(a) != 0 && (a != b ==> Mask(a) & Mask(b) == 0)
  {
    assert Mask(0) == 1 && Mask(1) == 2 && Mask(2) == 4 && Mask(3) == 8;
    assert Mask(4) == 16 && Mask(5) == 32 && Mask(6) == 64 && Mask(7) == 128;
  }

  lemma BitAlgebra(x: bv8, a: bv8, b: bv8)
    ensures a != 0 ==> (x | a) & a != 0
    ensures (x & !a) & a == 0
    ensures a & b == 0 ==> (x | a) & b == x & b && (x & !a) & b == x & b
  {
  }

  /** Setting or clearing one bit of one byte adds or removes that frame, and no other. */
  lemma OneBit(m: seq<bv8>, f: nat, on: bool)
    requires |m| == MAP_BYTES && f < MAX_FRAMES
    ensures var w := m[f / 8 := if on then m[f / 8] | Mask(f) else m[f / 8] & !Mask(f)];
            Frames(w) == if on then Frames(m) + iset{f} else Frames(m) - iset{f}
  {
    var w := m[f / 8 := if on then m[f / 8] | Mask(f) else m[f / 8] & !Mask(f)];
    forall g: nat ensures IsFrame(w, g) <==> if g == f then on else IsFrame(m, g) {
      if g < MAX_FRAMES { OneBitAt(m, f, on, g, w); }
    }
    hide IsFrame;
  }

  lemma OneBitAt(m: seq<bv8>, f: nat, on: bool, g: nat, w: seq<bv8>)
    requires |m| == MAP_BYTES && f < MAX_FRAMES && g < MAX_FRAMES
    requires w == m[f / 8 := if on then m[f / 8] | Mask(f) else m[f / 8] & !Mask(f)]
    ensures Bit(w, g) <==> if g == f then on else Bit(m, g)
  {
    hide Mask;
    if g / 8 == f / 8 {
      MasksApart(f, g);
      SameByte(f, g);
      BitAlgebra(m[f / 8], Mask(f), Mask(g));
    }
  }

  lemma SameByte(f: nat, g: nat)
    requires f / 8 == g / 8
    ensures f % 8 == g % 8 <==> f == g
  {
  }

  method SetBit(bits: array<bv8>, f: nat)
    requires bits.Length == MAP_BYTES
    modifies bits
    ensures Frames(bits[..]) == if f < MAX_FRAMES then Frames(old(bits[..])) + iset{f} else Frames(old(bits[..]))
  {
    hide Mask, Frames;
    if f >= MAX_FRAMES { return; }
    OneBit(bits[..], f, true);
    ghost var m := bits[..];
    bits[f / 8] := bits[f / 8] | Mask(f);
    assert bits[..] == m[f / 8 := m[f / 8] | Mask(f)];
  }

  method ClearBit(bits: array<bv8>, f: nat)
    requires bits.Length == MAP_BYTES
    modifies bits
    ensures Frames(bits[..]) == Frames(old(bits[..])) - iset{f}
  {
    if f >= MAX_FRAMES { return; }
    hide Mask, Frames;
    OneBit(bits[..], f, false);
    ghost var m := bits[..];
    bits[f / 8] := bits[f / 8] & !Mask(f);
    assert bits[..] == m[f / 8 := m[f / 8] & !Mask(f)];
  }

  method ClearAll(bits: array<bv8>)
    requires bits.Length == MAP_BYTES
    modifies bits
    ensures Frames(bits[..]) == iset{}
  {
    var i := 0;
    while i < MAP_BYTES
      invariant 0 <= i <= MAP_BYTES
      invariant forall j | 0 <= j < i :: bits[j] == 0
    {
      bits[i] := 0;
      i := i + 1;
    }
    forall f: nat ensures !IsFrame(bits[..], f) {}
  }

  method TestBit(bits: array<bv8>, f: nat) returns (isSet: bool)
    requires bits.Length == MAP_BYTES
    ensures isSet <==> f in Frames(bits[..])
  {
    hide Mask;
    assert f < MAX_FRAMES ==> bits[..][f / 8] == bits[f / 8];
    isSet := f < MAX_FRAMES && bits[f / 8] & Mask(f) != 0;
  }
}
