// Numbers in memory, lowest byte first: reading a field back gives the number written to it.
module LittleEndian {
  type Byte = b: int | 0 <= b < 256

  // ----- reading

  function U32(mem: seq<Byte>, at: nat): (n: nat)
    requires at + 4 <= |mem|
    ensures n < 0x1_0000_0000
  {
    (mem[at] as int) + 0x100 * (mem[at+1] as int) + 0x1_0000 * (mem[at+2] as int) + 0x100_0000 * (mem[at+3] as int)
  }

  function U64(mem: seq<Byte>, at: nat): (n: nat)
    requires at + 8 <= |mem|
    ensures n < 0x1_0000_0000_0000_0000
  {
    U32(mem, at) + 0x1_0000_0000 * U32(mem, at + 4)
  }

  // ----- writing

  function Word(n: nat): (w: seq<Byte>)
    ensures |w| == 4
  {
    [n % 256, n / 256 % 256, n / 65536 % 256, n / 16777216 % 256]
  }

  function Long(n: nat): (w: seq<Byte>)
    ensures |w| == 8
  {
    Word(n % 4294967296) + Word(n / 4294967296)
  }

  // ----- and reading back what was written

  /** The bytes `w` stand at offset `at`. */
  ghost predicate Stands(mem: seq<Byte>, at: nat, w: seq<Byte>) {
    at + |w| <= |mem| && mem[at..at + |w|] == w
  }

  lemma StandsBoth(mem: seq<Byte>, at: nat, a: seq<Byte>, b: seq<Byte>)
    requires Stands(mem, at, a + b)
    ensures Stands(mem, at, a) && Stands(mem, at + |a|, b)
  {
    var w := mem[at..at + |a + b|];
    assert w[..|a|] == a && w[|a|..] == b;
    assert mem[at..at + |a|] == w[..|a|];
    assert mem[at + |a|..at + |a| + |b|] == w[|a|..];
  }

  lemma WordRead(mem: seq<Byte>, at: nat, n: nat)
    requires Stands(mem, at, Word(n)) && n < 0x1_0000_0000
    ensures U32(mem, at) == n
  {
    var w := mem[at..at + 4];
    assert w == Word(n) && mem[at] == w[0] && mem[at + 1] == w[1] && mem[at + 2] == w[2] && mem[at + 3] == w[3];
    FourBytes(n);
  }

  lemma FourBytes(n: nat)
    requires n < 0x1_0000_0000
    ensures n % 256 + 0x100 * (n / 256 % 256) + 0x1_0000 * (n / 65536 % 256) + 0x100_0000 * (n / 16777216 % 256) == n
  {
    assert n / 65536 == n / 256 / 256 && n / 16777216 == n / 65536 / 256;
    assert n / 16777216 < 256;
  }

  lemma LongRead(mem: seq<Byte>, at: nat, n: nat)
    requires Stands(mem, at, Long(n)) && n < 0x1_0000_0000_0000_0000
    ensures U64(mem, at) == n
  {
    hide U32, Word, Stands;
    StandsBoth(mem, at, Word(n % 4294967296), Word(n / 4294967296));
    WordRead(mem, at, n % 4294967296);
    WordRead(mem, at + 4, n / 4294967296);
    assert at + 8 <= |mem| by { StandsInside(mem, at, Long(n)); }
  }

  lemma StandsInside(mem: seq<Byte>, at: nat, w: seq<Byte>)
    requires Stands(mem, at, w)
    ensures at + |w| <= |mem|
  {
  }

  lemma StandsAll(mem: seq<Byte>)
    ensures Stands(mem, 0, mem)
  {
  }
}
