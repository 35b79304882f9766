// Machine bytes and words, and the bitwise operators the kernel applies to them.
// Words are integers below 2^32, so that address arithmetic stays linear; the
// bitwise operators are defined bit by bit and related to that arithmetic below.
module Words {
  import Arithmetic

  type Byte = x: int | 0 <= x < 0x100
  type Word = x: int | 0 <= x < WORD_LIMIT
  const WORD_LIMIT := 0x1_0000_0000

  // A difference of two addresses, which C takes as a signed 32-bit number.
  function Signed(x: int): (d: int)
    ensures -0x8000_0000 <= d < 0x8000_0000
  {
    (x + 0x8000_0000) % WORD_LIMIT - 0x8000_0000
  }

  // s with the bytes from position at on replaced by the given ones.
  function Overwrite(s: seq<Byte>, at: nat, bytes: seq<Byte>): seq<Byte>
    requires at + |bytes| <= |s|
  {
    s[..at] + bytes + s[at + |bytes|..]
  }

  lemma OverwriteNothing(s: seq<Byte>, at: nat)
    requires at <= |s|
    ensures Overwrite(s, at, []) == s
  {
  }

  lemma OverwriteTwice(s: seq<Byte>, at: nat, first: seq<Byte>, second: seq<Byte>)
    requires at + |first| + |second| <= |s|
    ensures Overwrite(Overwrite(s, at, first), at + |first|, second) == Overwrite(s, at, first + second)
  {
  }

  function BitOr(a: nat, b: nat): nat
    decreases a + b
  {
    if a == 0 && b == 0 then 0
    else 2 * BitOr(a / 2, b / 2) + (if a % 2 == 1 || b % 2 == 1 then 1 else 0)
  }

  function BitAnd(a: nat, b: nat): nat
    decreases a + b
  {
    if a == 0 && b == 0 then 0
    else 2 * BitAnd(a / 2, b / 2) + (if a % 2 == 1 && b % 2 == 1 then 1 else 0)
  }

  // Bit k of a number.
  predicate Bit(a: nat, k: nat) {
    if k == 0 then a % 2 == 1 else Bit(a / 2, k - 1)
  }

  // Each bit of an or, and of an and, is that of the two bits.
  lemma {:induction false} BitOfOr(a: nat, b: nat, k: nat)
    ensures Bit(BitOr(a, b), k) <==> Bit(a, k) || Bit(b, k)
    decreases k
  {
    OrOfHalves(a, b);
    hide BitOr;
    if k > 0 {
      BitOfOr(a / 2, b / 2, k - 1);
    }
  }

  lemma OrOfHalves(a: nat, b: nat)
    ensures BitOr(a, b) / 2 == BitOr(a / 2, b / 2)
    ensures BitOr(a, b) % 2 == if a % 2 == 1 || b % 2 == 1 then 1 else 0
  {
  }

  lemma {:induction false} BitOfAnd(a: nat, b: nat, k: nat)
    ensures Bit(BitAnd(a, b), k) <==> Bit(a, k) && Bit(b, k)
    decreases k
  {
    AndOfHalves(a, b);
    hide BitAnd;
    if k > 0 {
      BitOfAnd(a / 2, b / 2, k - 1);
    }
  }

  lemma AndOfHalves(a: nat, b: nat)
    ensures BitAnd(a, b) / 2 == BitAnd(a / 2, b / 2)
    ensures BitAnd(a, b) % 2 == if a % 2 == 1 && b % 2 == 1 then 1 else 0
  {
  }

  function Pow2(k: nat): (p: nat)
    ensures p > 0
  {
    if k == 0 then 1 else 2 * Pow2(k - 1)
  }

  // A value whose low k bits are clear, or-ed with one that has only those bits,
  // is their sum.
  lemma {:induction false} OrIsSum(hi: nat, lo: nat, k: nat)
    requires lo < Pow2(k)
    ensures BitOr(hi * Pow2(k), lo) == hi * Pow2(k) + lo
  {
    if k == 0 {
      OrZero(hi);
    } else {
      var a := hi * Pow2(k);
      assert a == 2 * (hi * Pow2(k - 1));
      OrIsSum(hi, lo / 2, k - 1);
    }
  }

  // Or-ing low bits into a value changes its low part only.
  lemma {:induction false} OrKeepsHigh(hi: nat, lo: nat, bits: nat, k: nat)
    requires lo < Pow2(k) && bits < Pow2(k)
    ensures BitOr(hi * Pow2(k) + lo, bits) == hi * Pow2(k) + BitOr(lo, bits)
    ensures BitOr(lo, bits) < Pow2(k)
  {
    if k == 0 {
      OrZero(hi);
    } else {
      var p := Pow2(k - 1);
      assert hi * Pow2(k) == 2 * (hi * p);
      OrKeepsHigh(hi, lo / 2, bits / 2, k - 1);
      assert (hi * Pow2(k) + lo) / 2 == hi * p + lo / 2;
    }
  }

  lemma {:induction false} OrZero(a: nat)
    ensures BitOr(a, 0) == a
  {
    if a > 0 {
      OrZero(a / 2);
    }
  }

  // Or-ing two words gives a word.
  lemma {:induction false} OrStaysBelow(a: nat, b: nat, k: nat)
    requires a < Pow2(k) && b < Pow2(k)
    ensures BitOr(a, b) < Pow2(k)
  {
    if k > 0 {
      OrStaysBelow(a / 2, b / 2, k - 1);
    }
  }

  // Masking with n ones followed by k zeros keeps exactly the high part.
  lemma {:induction false} AndKeepsHigh(hi: nat, lo: nat, k: nat, n: nat)
    requires hi < Pow2(n) && lo < Pow2(k)
    ensures BitAnd(hi * Pow2(k) + lo, (Pow2(n) - 1) * Pow2(k)) == hi * Pow2(k)
  {
    if k == 0 {
      AndAllOnes(hi, n);
    } else {
      var p := Pow2(k - 1);
      assert hi * Pow2(k) == 2 * (hi * p);
      assert (Pow2(n) - 1) * Pow2(k) == 2 * ((Pow2(n) - 1) * p);
      AndKeepsHigh(hi, lo / 2, k - 1, n);
      assert (hi * Pow2(k) + lo) / 2 == hi * p + lo / 2;
    }
  }

  lemma {:induction false} AndAllOnes(a: nat, n: nat)
    requires a < Pow2(n)
    ensures BitAnd(a, Pow2(n) - 1) == a
  {
    if n > 0 {
      AndAllOnes(a / 2, n - 1);
      assert (Pow2(n) - 1) / 2 == Pow2(n - 1) - 1;
    }
  }

  // The low bits of a number are those of its low part.
  lemma {:induction false} BitOfLow(hi: nat, lo: nat, n: nat, k: nat)
    requires k < n
    ensures Bit(hi * Pow2(n) + lo, k) <==> Bit(lo, k)
    decreases k
  {
    var p := Pow2(n - 1);
    assert hi * Pow2(n) == 2 * (hi * p);
    if k > 0 {
      BitOfLow(hi, lo / 2, n - 1, k - 1);
      assert (hi * Pow2(n) + lo) / 2 == hi * p + lo / 2;
    }
  }

  lemma PowersUsed()
    ensures Pow2(8) == 0x100 && Pow2(12) == 0x1000 && Pow2(16) == 0x1_0000
    ensures Pow2(20) == 0x10_0000 && Pow2(24) == 0x100_0000 && Pow2(32) == WORD_LIMIT
  {
    assert Pow2(4) == 16;
    assert Pow2(8) == 0x100;
    assert Pow2(12) == 0x1000;
    assert Pow2(16) == 0x1_0000;
    assert Pow2(20) == 0x10_0000;
    assert Pow2(24) == 0x100_0000;
    assert Pow2(28) == 0x1000_0000;
  }

  // entry & 0xfffff000 clears the twelve flag bits of a page-table entry.
  lemma PageMask(w: Word)
    ensures BitAnd(w, 0xffff_f000) == w - w % 0x1000
  {
    PowersUsed();
    AndKeepsHigh(w / 0x1000, w % 0x1000, 12, 20);
  }

  // The page frame a page-table entry names.
  function PageFrame(entry: Word): (frame: nat)
    ensures frame == entry - entry % 0x1000
    ensures frame % 0x1000 == 0 && frame + 0x1000 <= WORD_LIMIT
  {
    PageMask(entry);
    BitAnd(entry, 0xffff_f000)
  }

  // address | flags on a page-aligned address adds the flags.
  lemma PageOr(address: Word, flags: nat)
    requires address % 0x1000 == 0 && flags < 0x1000
    ensures BitOr(address, flags) == address + flags
  {
    PowersUsed();
    OrIsSum(address / 0x1000, flags, 12);
  }

  // The frame of (address | flags), and of (address | flags) | more, is the address again.
  lemma PageOrMask(address: Word, flags: nat, more: nat)
    requires address % 0x1000 == 0 && flags < 0x1000 && more < 0x1000
    ensures BitOr(BitOr(address, flags), more) < WORD_LIMIT
    ensures PageFrame(BitOr(BitOr(address, flags), more)) == address
    ensures BitOr(address, flags) < WORD_LIMIT && PageFrame(BitOr(address, flags)) == address
  {
    PageOr(address, flags);
    var low := BitOr(flags, more);
    assert low < 0x1000 && BitOr(address + flags, more) == address + low by {
      PowersUsed();
      OrKeepsHigh(address / 0x1000, flags, more, 12);
    }
    hide BitOr, BitAnd, Pow2;
    FrameOfSum(address, flags);
    FrameOfSum(address, low);
  }

  lemma FrameOfSum(address: Word, low: nat)
    requires address % 0x1000 == 0 && low < 0x1000
    ensures address + low < WORD_LIMIT && PageFrame(address + low) == address
  {
    hide BitAnd;
    assert (address + low) % 0x1000 == low;
  }

  lemma OrIsWord(a: Word, b: Word)
    ensures BitOr(a, b) < WORD_LIMIT
  {
    PowersUsed();
    OrStaysBelow(a, b, 32);
  }

  lemma {:induction false} OrCommutes(a: nat, b: nat)
    ensures BitOr(a, b) == BitOr(b, a)
    decreases a + b
  {
    if a > 0 || b > 0 {
      OrCommutes(a / 2, b / 2);
    }
  }

  // Masking with n ones keeps the low part.
  lemma {:induction false} AndKeepsLow(a: nat, n: nat)
    ensures BitAnd(a, Pow2(n) - 1) == a % Pow2(n)
  {
    if n == 0 {
      AndZero(a);
    } else {
      AndKeepsLow(a / 2, n - 1);
      HalfMask(a, n);
    }
  }

  lemma HalfMask(a: nat, n: nat)
    requires n > 0
    ensures (Pow2(n) - 1) / 2 == Pow2(n - 1) - 1 && (Pow2(n) - 1) % 2 == 1
    ensures a % Pow2(n) == 2 * (a / 2 % Pow2(n - 1)) + a % 2
  {
    var p := Pow2(n - 1);
    var q, r := a / 2 / p, a / 2 % p;
    assert a / 2 == q * p + r;
    assert a == q * (2 * p) + (2 * r + a % 2) by {
      assert q * (2 * p) == 2 * (q * p);
    }
    Arithmetic.DivModUnique(a, 2 * p, q, 2 * r + a % 2);
  }

  lemma {:induction false} AndZero(a: nat)
    ensures BitAnd(a, 0) == 0
  {
    if a > 0 {
      AndZero(a / 2);
    }
  }
}
