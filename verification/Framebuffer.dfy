// The frame buffer of a program: a picture in a row of bytes, and scrolling in it.
module Framebuffer {
  import Arithmetic
  import opened Words

  const FONT_SCALE := 2

  // The bytes of a row, in the 32-bit arithmetic of the code.
  function RowBytes(w: Word, bpp: Word): nat { w * bpp % WORD_LIMIT / 8 }

  // They are right exactly when the number of bits of a row fits in a word.
  lemma RowBytesRight(w: Word, bpp: Word)
    ensures RowBytes(w, bpp) == w * bpp / 8 <==> w * bpp < WORD_LIMIT
  {
    BytesRight(w * bpp);
  }

  lemma BytesRight(bits: nat)
    ensures bits % WORD_LIMIT / 8 == bits / 8 <==> bits < WORD_LIMIT
  {
  }

  lemma BufferSize(w: Word, h: Word, bpp: Word)
    requires w * bpp < WORD_LIMIT && w * bpp / 8 * h < WORD_LIMIT
    ensures RowBytes(w, bpp) * h == RowBytes(w, bpp) * h % WORD_LIMIT < WORD_LIMIT
  {
    RowBytesRight(w, bpp);
    Arithmetic.NotNegative(RowBytes(w, bpp), h);
    hide RowBytes;
  }

  // A picture of 0x800_0000 pixels has rows of no bytes.
  lemma WideRowIsLost()
    ensures RowBytes(0x800_0000, 32) == 0
  {
  }

  // The bytes a scroll by some lines moves, in 32 bits: the lines that are left are counted
  // in an unsigned number.
  function MovedBytes(pitch: Word, height: Word, lines: Word): nat {
    pitch * ((height - lines) % WORD_LIMIT) % WORD_LIMIT
  }

  // Together with those it clears they are the picture exactly if it scrolls by no more lines
  // than there are.
  lemma ScrollFits(pitch: Word, height: Word, lines: Word)
    requires pitch > 0 && pitch * height < WORD_LIMIT && pitch * lines < WORD_LIMIT
    ensures MovedBytes(pitch, height, lines) + pitch * lines == pitch * height <==> lines <= height
  {
    if lines <= height {
      MovedRight(pitch, height, lines);
    } else {
      var d := lines - height;
      assert (height - lines) % WORD_LIMIT == WORD_LIMIT - d;
      Arithmetic.Distribute(height, d, pitch);
      Arithmetic.Commute(pitch, lines);
      Arithmetic.Commute(pitch, height);
      Arithmetic.MulAtLeast(d, pitch);
      Arithmetic.NotNegative(height, pitch);
      WrappedProduct(pitch, d);
    }
  }

  lemma MovedRight(pitch: Word, height: Word, lines: Word)
    requires pitch * height < WORD_LIMIT && lines <= height
    ensures MovedBytes(pitch, height, lines) == pitch * (height - lines)
    ensures pitch * (height - lines) + pitch * lines == pitch * height
  {
    Arithmetic.Distribute(lines, height - lines, pitch);
    Arithmetic.Commute(pitch, lines);
    Arithmetic.Commute(pitch, height);
    Arithmetic.Commute(pitch, height - lines);
    Arithmetic.NotNegative(height - lines, pitch);
    Arithmetic.NotNegative(lines, pitch);
  }

  lemma WrappedProduct(pitch: Word, d: Word)
    requires 0 < d * pitch < WORD_LIMIT
    ensures pitch * (WORD_LIMIT - d) % WORD_LIMIT == WORD_LIMIT - d * pitch
  {
    Arithmetic.Distribute(WORD_LIMIT - d, d, pitch);
    Arithmetic.Commute(pitch, WORD_LIMIT - d);
    Arithmetic.DivModUnique(pitch * (WORD_LIMIT - d), WORD_LIMIT, pitch - 1, WORD_LIMIT - d * pitch);
  }

  // The first line of text in a picture of eight lines: nearly 4 GB are to be moved.
  lemma LowPictureIsLost()
    ensures MovedBytes(1, 8, 16) == 0xFFFF_FFF8
  {
  }

  // The place the code computes for a pixel, in 32 bits.
  function PixelOffset(x: Word, y: Word, pitch: nat, bpp: nat): nat {
    (y * pitch % WORD_LIMIT + x * bpp % WORD_LIMIT / 8) % WORD_LIMIT
  }

  // The byte a pixel starts at, if rows of width pixels of b bytes follow each other.
  function Offset(x: nat, y: nat, width: nat, b: nat): nat { (y * width + x) * b }

  // Pixels lie in the buffer, and different ones apart from each other.
  lemma PixelInside(x: nat, y: nat, width: nat, height: nat, b: nat)
    requires x < width && y < height
    ensures Offset(x, y, width, b) + b <= width * b * height
  {
    var c := y * width + x;
    Arithmetic.Distribute(y, 1, width);
    Arithmetic.NextPiece(width, y, height);
    assert width * y == y * width;
    assert c + 1 <= width * height;
    Arithmetic.NextPiece(b, c, width * height);
    assert b * c == c * b;
    assert b * (width * height) == width * b * height;
  }

  lemma PixelsApart(x: nat, y: nat, x': nat, y': nat, width: nat, b: nat)
    requires x < width && x' < width && (x, y) != (x', y')
    ensures Offset(x, y, width, b) + b <= Offset(x', y', width, b) || Offset(x', y', width, b) + b <= Offset(x, y, width, b)
  {
    var c, c' := y * width + x, y' * width + x';
    Arithmetic.DivModUnique(c, width, y, x);
    Arithmetic.DivModUnique(c', width, y', x');
    if c < c' {
      Arithmetic.NextPiece(b, c, c');
    } else {
      Arithmetic.NextPiece(b, c', c);
    }
    assert b * c == c * b && b * c' == c' * b;
  }

  lemma WholeBytes(n: nat, bpp: Word)
    requires bpp == 24 || bpp == 32
    ensures n * bpp / 8 == n * (bpp / 8)
  {
  }

  // The place the code computes is the one of the pixel, if that lies below 2^32.
  lemma OffsetRight(x: Word, y: Word, width: nat, bpp: Word)
    requires bpp == 24 || bpp == 32
    requires x * bpp < WORD_LIMIT && Offset(x, y, width, bpp / 8) < WORD_LIMIT
    ensures PixelOffset(x, y, width * (bpp / 8), bpp) == Offset(x, y, width, bpp / 8)
  {
    var b := bpp / 8;
    hide Offset;
    WholeBytes(x, bpp);
    Rows(x, y, width, b);
    Arithmetic.NotNegative(y, width * b);
    NothingWraps(y * (width * b), x * bpp);
  }

  lemma NothingWraps(a: nat, bits: nat)
    requires bits < WORD_LIMIT && a + bits / 8 < WORD_LIMIT
    ensures (a % WORD_LIMIT + bits % WORD_LIMIT / 8) % WORD_LIMIT == a + bits / 8
  {
  }

  // The colour in the b bytes from o on, the lowest byte first.
  function Colour(bytes: seq<Byte>, o: nat, b: nat): nat
    requires (b == 3 || b == 4) && o + b <= |bytes|
  {
    var blue: nat, green: nat, red: nat := bytes[o], bytes[o + 1], bytes[o + 2];
    var alpha: nat := if b == 4 then bytes[o + 3] else 0;
    blue + 0x100 * green + 0x1_0000 * red + 0x100_0000 * alpha
  }

  // A colour stands in memory as blue, green, red and, with 32 bits, alpha.
  predicate InBytes(bytes: seq<Byte>, o: nat, b: nat, color: Word)
    requires o + b <= |bytes|
  {
    && (b >= 1 ==> bytes[o] as int == color % 0x100)
    && (b >= 2 ==> bytes[o + 1] as int == color / 0x100 % 0x100)
    && (b >= 3 ==> bytes[o + 2] as int == color / 0x1_0000 % 0x100)
    && (b >= 4 ==> bytes[o + 3] as int == color / 0x100_0000)
  }

  lemma ColourKept(before: seq<Byte>, after: seq<Byte>, o: nat, o': nat, b: nat)
    requires (b == 3 || b == 4) && |before| == |after| && o + b <= |before| && o' + b <= |before|
    requires before[..o] == after[..o] && before[o + b..] == after[o + b..]
    requires o' + b <= o || o + b <= o'
    ensures Colour(before, o', b) == Colour(after, o', b)
  {
    SameByte(before, after, o, b, o');
    SameByte(before, after, o, b, o' + 1);
    SameByte(before, after, o, b, o' + 2);
    SameByte(before, after, o, b, o' + b - 1);
  }

  lemma SameByte(before: seq<Byte>, after: seq<Byte>, o: nat, b: nat, i: nat)
    requires |before| == |after| && o + b <= |before| && i < |before|
    requires before[..o] == after[..o] && before[o + b..] == after[o + b..]
    requires i < o || o + b <= i
    ensures before[i] == after[i]
  {
    if i < o {
      assert before[..o][i] == after[..o][i];
    } else {
      assert before[o + b..][i - (o + b)] == after[o + b..][i - (o + b)];
    }
  }

  // The bytes moved down by d, and zeroes behind them.
  ghost predicate Scrolled(before: seq<Byte>, after: seq<Byte>, d: nat) {
    && |after| == |before| && d <= |before|
    && after[..|before| - d] == before[d..]
    && forall k :: |before| - d <= k < |before| ==> after[k] == 0
  }

  lemma ScrolledColour(before: seq<Byte>, after: seq<Byte>, d: nat, o: nat, b: nat)
    requires (b == 3 || b == 4) && Scrolled(before, after, d) && o + b <= |before|
    ensures o + d + b <= |before| ==> Colour(after, o, b) == Colour(before, o + d, b)
    ensures |before| <= o + d ==> Colour(after, o, b) == 0
  {
    if o + d + b <= |before| {
      ScrolledByte(before, after, d, o);
      ScrolledByte(before, after, d, o + 1);
      ScrolledByte(before, after, d, o + 2);
      ScrolledByte(before, after, d, o + b - 1);
    }
  }

  lemma ScrolledByte(before: seq<Byte>, after: seq<Byte>, d: nat, i: nat)
    requires Scrolled(before, after, d) && i + d < |before|
    ensures after[i] == before[i + d]
  {
    assert after[..|before| - d][i] == before[d..][i];
  }

  // Moving by whole lines moves each pixel to the line above it by as much.
  lemma LinesUp(x: nat, y: nat, lines: nat, width: nat, height: nat, b: nat)
    requires x < width && y < height && lines <= height
    ensures width * b * lines <= width * b * height
    ensures y + lines < height ==>
      && Offset(x, y + lines, width, b) == Offset(x, y, width, b) + width * b * lines
      && Offset(x, y + lines, width, b) + b <= width * b * height
    ensures y + lines >= height ==> Offset(x, y, width, b) + width * b * lines >= width * b * height
  {
    var row := width * b;
    Rows(x, y, width, b);
    Rows(x, y + lines, width, b);
    if y + lines < height {
      PixelInside(x, y + lines, width, height, b);
    }
    hide Offset;
    Arithmetic.Commute(row, lines);
    Arithmetic.Commute(row, height);
    Arithmetic.Distribute(y, lines, row);
    Arithmetic.MulMonotone(lines, height, row);
    if y + lines >= height {
      Arithmetic.MulMonotone(height, y + lines, row);
    }
    Arithmetic.NotNegative(x, b);
  }

  lemma Rows(x: nat, y: nat, width: nat, b: nat)
    ensures Offset(x, y, width, b) == y * (width * b) + x * b
  {
    Arithmetic.Distribute(y * width, x, b);
    assert y * width * b == y * (width * b);
  }

  // color >> n & 0xFF, where divisor is 2^n
  function ByteOf(color: nat, divisor: nat): (byte: Byte)
    requires divisor > 0
    ensures byte == color / divisor % 0x100
  {
    LowByte(color / divisor);
    BitAnd(color / divisor, 0xFF)
  }

  lemma LowByte(v: nat)
    ensures BitAnd(v, 0xFF) == v % 0x100
  {
    PowersUsed();
    AndKeepsLow(v, 8);
  }

  lemma BytesOfColour(color: Word)
    ensures var blue: nat, green: nat, red: nat, alpha: nat :=
              ByteOf(color, 1), ByteOf(color, 0x100), ByteOf(color, 0x1_0000), ByteOf(color, 0x100_0000);
            && blue + 0x100 * green + 0x1_0000 * red == color % 0x100_0000
            && blue + 0x100 * green + 0x1_0000 * red + 0x100_0000 * alpha == color
  {
    LowByte(color);
    LowByte(color / 0x100);
    LowByte(color / 0x1_0000);
    LowByte(color / 0x100_0000);
    hide BitAnd;
    Digits(color);
  }

  lemma Digits(c: Word)
    ensures c % 0x100 + 0x100 * (c / 0x100 % 0x100) + 0x1_0000 * (c / 0x1_0000 % 0x100) == c % 0x100_0000
    ensures c % 0x100_0000 + 0x100_0000 * (c / 0x100_0000 % 0x100) == c
  {
    DivTwice(c, 0x100, 0x100);
    DivTwice(c, 0x1_0000, 0x100);
  }

  lemma DivTwice(c: nat, a: nat, b: nat)
    requires a > 0 && b > 0
    ensures a * b > 0 && c / a / b == c / (a * b) && c % (a * b) == c % a + a * (c / a % b)
  {
    assert c == c / a * a + c % a;
    assert c / a == c / a / b * b + c / a % b;
    Nested(c, a, b, c / a, c % a, c / a / b, c / a % b);
  }

  lemma Nested(c: nat, a: nat, b: nat, q: nat, r: nat, q': nat, r': nat)
    requires c == q * a + r && r < a && q == q' * b + r' && r' < b
    ensures a * b > 0 && c / (a * b) == q' && c % (a * b) == r + a * r'
  {
    Regroup(q', b, r', a, r);
    Arithmetic.NextPiece(a, r', b);
    Arithmetic.DivModUnique(c, a * b, q', r + a * r');
  }

  lemma Regroup(q: nat, b: nat, r': nat, a: nat, r: nat)
    ensures (q * b + r') * a + r == q * (a * b) + (r + a * r')
  {
    Arithmetic.Distribute(q * b, r', a);
    assert q * b * a == q * (a * b);
    Arithmetic.Commute(r', a);
  }

  lemma FourthByte(color: Word)
    ensures color / 0x100_0000 < 0x100
  {
  }

  // The bytes of a colour in memory are that colour, as far as there are bytes for it.
  lemma BytesAreColour(bytes: seq<Byte>, o: nat, b: nat, color: Word)
    requires (b == 3 || b == 4) && o + b <= |bytes| && InBytes(bytes, o, b, color)
    ensures Colour(bytes, o, b) == color % Pow2(8 * b)
  {
    BytesOfColour(color);
    PowersUsed();
    hide ByteOf, Pow2;
  }

  // pixel | byte << k
  function OrShifted(pixel: nat, byte: nat, k: nat): (r: nat)
    ensures pixel < Pow2(k) ==> r == pixel + byte * Pow2(k)
  {
    if pixel < Pow2(k) then OrCommutes(pixel, byte * Pow2(k)); OrIsSum(byte, pixel, k); BitOr(pixel, byte * Pow2(k))
    else BitOr(pixel, byte * Pow2(k))
  }

  class Graphics {
    const buffer: array<Byte>
    const WIDTH: Word
    const HEIGHT: Word
    const BPP: Word
    const PITCH: nat

    // A row of whole bytes and the whole picture can be counted in 32 bits.
    ghost predicate Valid() {
      && (BPP == 24 || BPP == 32) && WIDTH * BPP < WORD_LIMIT && PITCH == RowBytes(WIDTH, BPP)
      && PITCH * HEIGHT < WORD_LIMIT && buffer.Length == PITCH * HEIGHT
    }

    // The picture.
    ghost function Pixel(x: nat, y: nat): nat
      requires Valid() && x < WIDTH && y < HEIGHT
      reads buffer
    {
      Fits(x, y);
      Colour(buffer[..], Offset(x, y, WIDTH, BPP / 8), BPP / 8)
    }

    // The offset the code computes is the one of the pixel.
    lemma Fits(x: nat, y: nat)
      requires Valid() && x < WIDTH && y < HEIGHT
      ensures PixelOffset(x, y, PITCH, BPP) == Offset(x, y, WIDTH, BPP / 8)
      ensures Offset(x, y, WIDTH, BPP / 8) + BPP / 8 <= buffer.Length
      ensures BPP / 8 == 3 || BPP / 8 == 4
    {
      Shape();
      PixelInside(x, y, WIDTH, HEIGHT, BPP / 8);
      Arithmetic.NextPiece(BPP, x, WIDTH);
      assert BPP * x == x * BPP && BPP * WIDTH == WIDTH * BPP;
      hide RowBytes, Offset;
      OffsetRight(x, y, WIDTH, BPP);
    }

    lemma Shape()
      requires Valid()
      ensures (BPP / 8 == 3 || BPP / 8 == 4) && PITCH == WIDTH * (BPP / 8)
      ensures buffer.Length == PITCH * HEIGHT == WIDTH * (BPP / 8) * HEIGHT
    {
      RowBytesRight(WIDTH, BPP);
      WholeBytes(WIDTH, BPP);
    }

    // A buffer of the program's own, for a picture of a given size.
    constructor (w: Word, h: Word, bpp: Word)
      requires bpp == 24 || bpp == 32
      requires w * bpp < WORD_LIMIT && w * bpp / 8 * h < WORD_LIMIT
      ensures Valid() && WIDTH == w && HEIGHT == h && BPP == bpp && fresh(buffer)
      ensures forall x, y :: 0 <= x < WIDTH && 0 <= y < HEIGHT ==> Pixel(x, y) == 0
    {
      BufferSize(w, h, bpp);
      hide RowBytes;
      BPP, WIDTH, HEIGHT := bpp, w, h;
      PITCH := RowBytes(w, bpp);
      buffer := new Byte[RowBytes(w, bpp) * h % WORD_LIMIT];
      new;
      ClearScreen();
    }

    method ClearScreen()
      requires Valid()
      modifies buffer
      ensures forall x, y :: 0 <= x < WIDTH && 0 <= y < HEIGHT ==> Pixel(x, y) == 0
    {
      for x := 0 to WIDTH
        invariant forall i, j :: 0 <= i < x && 0 <= j < HEIGHT ==> Pixel(i, j) == 0
      {
        for y := 0 to HEIGHT
          invariant forall i, j :: 0 <= i < x && 0 <= j < HEIGHT ==> Pixel(i, j) == 0
          invariant forall j :: 0 <= j < y ==> Pixel(x, j) == 0
        {
          DrawPixel(x, y, 0);
        }
      }
    }

    method DrawPixel(x: Word, y: Word, color: Word)
      requires Valid()
      modifies buffer
      ensures x >= WIDTH || y >= HEIGHT ==> buffer[..] == old(buffer[..])
      ensures x < WIDTH && y < HEIGHT ==> Pixel(x, y) == color % Pow2(BPP)
      ensures x < WIDTH && y < HEIGHT ==>
        var o := Offset(x, y, WIDTH, BPP / 8);
        && 0 <= o && o + BPP / 8 <= buffer.Length && InBytes(buffer[..], o, BPP / 8, color)
      ensures forall x', y' :: 0 <= x' < WIDTH && 0 <= y' < HEIGHT && (x', y') != (x, y) ==>
        Pixel(x', y') == old(Pixel(x', y'))
    {
      if x >= WIDTH || y >= HEIGHT {
        return;
      }
      Fits(x, y);
      var offset := PixelOffset(x, y, PITCH, BPP);
      PutBytes(offset, color);
      hide Pow2, Colour;
      forall x', y' | 0 <= x' < WIDTH && 0 <= y' < HEIGHT && (x', y') != (x, y)
        ensures Pixel(x', y') == old(Pixel(x', y'))
      {
        Fits(x', y');
        PixelsApart(x, y, x', y', WIDTH, BPP / 8);
        ColourKept(old(buffer[..]), buffer[..], offset, Offset(x', y', WIDTH, BPP / 8), BPP / 8);
      }
    }

    method PutBytes(offset: nat, color: Word)
      requires Valid() && offset + BPP / 8 <= buffer.Length
      modifies buffer
      ensures BPP / 8 == 3 || BPP / 8 == 4
      ensures Colour(buffer[..], offset, BPP / 8) == color % Pow2(BPP)
      ensures InBytes(buffer[..], offset, BPP / 8, color)
      ensures buffer[..offset] == old(buffer[..offset]) && buffer[offset + BPP / 8..] == old(buffer[offset + BPP / 8..])
    {
      PutEach(offset, color);
      Shape();
      hide Colour, InBytes, Pow2, Graphics.Valid;
      BytesAreColour(buffer[..], offset, BPP / 8, color);
      assert 8 * (BPP / 8) == BPP;
    }

    method PutEach(offset: nat, color: Word)
      requires (BPP == 24 || BPP == 32) && offset + BPP / 8 <= buffer.Length
      modifies buffer
      ensures InBytes(buffer[..], offset, BPP / 8, color)
      ensures buffer[..offset] == old(buffer[..offset]) && buffer[offset + BPP / 8..] == old(buffer[offset + BPP / 8..])
    {
      FourthByte(color);
      hide ByteOf;
      if BPP == 32 {
        buffer[offset + 0] := ByteOf(color, 1);
        buffer[offset + 1] := ByteOf(color, 0x100);
        buffer[offset + 2] := ByteOf(color, 0x1_0000);
        buffer[offset + 3] := ByteOf(color, 0x100_0000);
      } else if BPP == 24 {
        buffer[offset + 0] := ByteOf(color, 1);
        buffer[offset + 1] := ByteOf(color, 0x100);
        buffer[offset + 2] := ByteOf(color, 0x1_0000);
      }
    }

    method GetPixel(x: Word, y: Word) returns (pixel: nat)
      requires Valid()
      ensures pixel == if x < WIDTH && y < HEIGHT then Pixel(x, y) else 0
    {
      if x >= WIDTH || y >= HEIGHT {
        return 0;
      }
      Fits(x, y);
      PowersUsed();
      hide Pow2, OrShifted;
      var offset := PixelOffset(x, y, PITCH, BPP);
      pixel := 0;
      if BPP == 32 {
        pixel := buffer[offset + 0];
        pixel := OrShifted(pixel, buffer[offset + 1], 8);
        pixel := OrShifted(pixel, buffer[offset + 2], 16);
        pixel := OrShifted(pixel, buffer[offset + 3], 24);
      } else if BPP == 24 {
        pixel := buffer[offset + 0];
        pixel := OrShifted(pixel, buffer[offset + 1], 8);
        pixel := OrShifted(pixel, buffer[offset + 2], 16);
      }
    }

    // memcpy within the buffer, to its beginning: it goes forward, so what it reads it has
    // not written.
    method MoveDown(from: nat, size: nat)
      requires from + size <= buffer.Length
      modifies buffer
      ensures buffer[..size] == old(buffer[from..from + size])
    {
      for i := 0 to size
        invariant buffer[..i] == old(buffer[from..from + i])
        invariant buffer[i..] == old(buffer[i..])
      {
        assert buffer[i..][from] == buffer[from + i];
        buffer[i] := buffer[from + i];
      }
    }

    method ClearFrom(at: nat, size: nat)
      requires at + size == buffer.Length
      modifies buffer
      ensures buffer[..at] == old(buffer[..at]) && forall k :: at <= k < buffer.Length ==> buffer[k] == 0
    {
      for i := 0 to size
        invariant buffer[..at] == old(buffer[..at]) && forall k :: at <= k < at + i ==> buffer[k] == 0
      {
        buffer[at + i] := 0;
      }
    }

    // The picture moves up by whole lines of text; zeroes come in from below.
    method ScrollScreen(amount: nat)
      requires Valid() && amount * 16 <= HEIGHT
      modifies buffer
      ensures var lines := amount * 16;
              forall x, y :: 0 <= x < WIDTH && 0 <= y < HEIGHT ==>
                Pixel(x, y) == if y + lines < HEIGHT then old(Pixel(x, y + lines)) else 0
    {
      var lines := amount * (8 * FONT_SCALE);
      ghost var before := buffer[..];
      ScrollBytes(lines);
      forall x, y | 0 <= x < WIDTH && 0 <= y < HEIGHT
        ensures Pixel(x, y) == if y + lines < HEIGHT then old(Pixel(x, y + lines)) else 0
      {
        PixelUp(x, y, lines, before);
      }
    }

    method ScrollBytes(lines: nat)
      requires Valid() && lines <= HEIGHT
      modifies buffer
      ensures PITCH * lines <= buffer.Length && Scrolled(old(buffer[..]), buffer[..], PITCH * lines)
    {
      ghost var before, d := buffer[..], PITCH * lines;
      MovedRight(PITCH, HEIGHT, lines);
      hide MovedBytes;
      MoveDown(PITCH * lines, MovedBytes(PITCH, HEIGHT, lines));
      ghost var moved := buffer[..|before| - d];
      ClearFrom(MovedBytes(PITCH, HEIGHT, lines), PITCH * lines);
      assert before[d..] == before[d..|before|];
      assert buffer[..][..|before| - d] == moved;
    }

    lemma PixelUp(x: nat, y: nat, lines: nat, before: seq<Byte>)
      requires Valid() && lines <= HEIGHT && x < WIDTH && y < HEIGHT
      requires Scrolled(before, buffer[..], PITCH * lines)
      ensures var b := BPP / 8;
              && (y + lines < HEIGHT ==>
                   && Offset(x, y + lines, WIDTH, b) + b <= |before|
                   && Pixel(x, y) == Colour(before, Offset(x, y + lines, WIDTH, b), b))
              && (y + lines >= HEIGHT ==> Pixel(x, y) == 0)
    {
      Fits(x, y);
      Shape();
      LinesUp(x, y, lines, WIDTH, HEIGHT, BPP / 8);
      hide Offset, Colour, Scrolled, Graphics.Valid;
      ScrolledColour(before, buffer[..], PITCH * lines, Offset(x, y, WIDTH, BPP / 8), BPP / 8);
    }
  }
}
