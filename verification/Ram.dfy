// Physical memory: 2^32 bytes, and the little-endian words in it.
module Ram {
  import opened Words

  const PAGE_SIZE := 4096

  type Memory = m: seq<Byte> | |m| == WORD_LIMIT witness seq<Byte>(WORD_LIMIT, _ => 0)

  // The page frame an address lies in.
  function FrameOf(a: nat): nat { a - a % PAGE_SIZE }

  lemma InFrame(frame: nat, d: nat)
    requires frame % PAGE_SIZE == 0 && d < PAGE_SIZE
    ensures FrameOf(frame + d) == frame
    ensures (frame + d) / PAGE_SIZE == frame / PAGE_SIZE && (frame + d) % PAGE_SIZE == d
  {
  }

  function WordIn(m: Memory, a: nat): Word
    requires a + 4 <= WORD_LIMIT
  {
    (m[a] as int) + 0x100 * (m[a + 1] as int) + 0x1_0000 * (m[a + 2] as int) + 0x100_0000 * (m[a + 3] as int)
  }

  // m' is m except between lo and hi.
  ghost predicate SameOutside(m: Memory, m': Memory, lo: nat, hi: nat) {
    forall a :: 0 <= a < WORD_LIMIT && !(lo <= a < hi) ==> m'[a] == m[a]
  }

  lemma WordKept(m: Memory, m': Memory, lo: nat, hi: nat, a: nat)
    requires SameOutside(m, m', lo, hi) && a + 4 <= WORD_LIMIT && (a + 4 <= lo || hi <= a)
    ensures WordIn(m', a) == WordIn(m, a)
  {
  }

  lemma SameOutsideTwice(m: Memory, m': Memory, m'': Memory, lo: nat, hi: nat, lo': nat, hi': nat)
    requires SameOutside(m, m', lo, hi) && SameOutside(m', m'', lo', hi') && lo <= lo' && hi' <= hi
    ensures SameOutside(m, m'', lo, hi)
  {
  }

  method WriteWord(ram: array<Byte>, a: nat, w: Word)
    requires ram.Length == WORD_LIMIT && a + 4 <= WORD_LIMIT
    modifies ram
    ensures SameOutside(old(ram[..]), ram[..], a, a + 4)
    ensures WordIn(ram[..], a) == w
    ensures ram[a] == w % 0x100 && ram[a + 1] == w / 0x100 % 0x100
    ensures ram[a + 2] == w / 0x1_0000 % 0x100 && ram[a + 3] == w / 0x100_0000
  {
    var rest1 := w / 0x100;
    var rest2 := rest1 / 0x100;
    var rest3 := rest2 / 0x100;
    ram[a], ram[a + 1] := w % 0x100, rest1 % 0x100;
    ram[a + 2], ram[a + 3] := rest2 % 0x100, rest3;
  }

  method ReadWord(ram: array<Byte>, a: nat) returns (w: Word)
    requires ram.Length == WORD_LIMIT && a + 4 <= WORD_LIMIT
    ensures w == WordIn(ram[..], a)
  {
    w := (ram[a] as int) + 0x100 * (ram[a + 1] as int) + 0x1_0000 * (ram[a + 2] as int) + 0x100_0000 * (ram[a + 3] as int);
  }

  ghost predicate CopiedTo(m: Memory, m': Memory, dst: nat, src: nat, size: nat)
    requires dst + size <= WORD_LIMIT && src + size <= WORD_LIMIT
  {
    SameOutside(m, m', dst, dst + size) && m'[dst..dst + size] == m[src..src + size]
  }

  method MemSet(ram: array<Byte>, ptr: nat, c: Byte, size: nat)
    requires ram.Length == WORD_LIMIT && ptr + size <= WORD_LIMIT
    modifies ram
    ensures SameOutside(old(ram[..]), ram[..], ptr, ptr + size)
    ensures forall a :: ptr <= a < ptr + size ==> ram[a] == c
  {
    for i := 0 to size
      invariant forall a :: 0 <= a < WORD_LIMIT ==> ram[a] == if ptr <= a < ptr + i then c else old(ram[a])
    {
      ram[ptr + i] := c;
    }
  }

  // Copies forward, byte by byte. Where the two ranges overlap that is still a copy of the
  // old source as long as the destination does not lie behind the source.
  method MemCpy(ram: array<Byte>, dst: nat, src: nat, size: nat)
    requires ram.Length == WORD_LIMIT && dst + size <= WORD_LIMIT && src + size <= WORD_LIMIT
    requires dst <= src || src + size <= dst
    modifies ram
    ensures CopiedTo(old(ram[..]), ram[..], dst, src, size)
  {
    for i := 0 to size
      invariant forall a :: 0 <= a < WORD_LIMIT ==>
        ram[a] == if dst <= a < dst + i then old(ram[..])[src + (a - dst)] else old(ram[a])
    {
      ram[dst + i] := ram[src + i];
    }
  }
}
