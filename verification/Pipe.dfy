// The pipe file system: a ring buffer that drops its oldest bytes when it is full.
module Pipe {
  import Arithmetic
  import opened Words

  // The last n bytes of s.
  function LastN(s: seq<Byte>, n: nat): (r: seq<Byte>)
    ensures |r| == if |s| <= n then |s| else n
  {
    if |s| <= n then s else s[|s| - n..]
  }

  // Keeping the last n after each of two appends keeps the last n of both.
  lemma LastNTwice(a: seq<Byte>, b: seq<Byte>, c: seq<Byte>, n: nat)
    ensures LastN(LastN(a + b, n) + c, n) == LastN(a + b + c, n)
  {
    var whole := a + b + c;
    assert LastN(a + b, n) + c == whole[|a + b| - |LastN(a + b, n)|..];
  }

  // The slot i places behind slot r of a ring of n.
  function Slot(r: nat, i: nat, n: nat): nat { if r + i < n then r + i else r + i - n }

  lemma ModIsSlot(r: nat, i: nat, n: nat)
    requires r < n && i <= n
    ensures (r + i) % n == Slot(r, i, n)
  {
    ModOnce(r + i, n);
  }

  lemma ModOnce(x: nat, n: nat)
    requires n > 0 && x <= 2 * n
    ensures x % n == if x < n then x else if x < 2 * n then x - n else 0
  {
  }

  // The c bytes of a ring that start at slot r.
  function Ring(buf: seq<Byte>, r: nat, c: nat): (q: seq<Byte>)
    requires r < |buf| && c <= |buf|
    ensures |q| == c
  {
    seq(c, i requires 0 <= i < c => buf[Slot(r, i, |buf|)])
  }

  // The ring after data has been copied in at slot w, in one piece or, behind the end of the
  // buffer, in two, of which the second may overwrite part of the first.
  ghost predicate Copied(buf: seq<Byte>, w: nat, data: seq<Byte>, buf': seq<Byte>) {
    && w <= |buf| && |data| <= 2 * |buf| - w && |buf'| == |buf|
    && forall k :: 0 <= k < |buf| ==>
         buf'[k] == if w + |data| > |buf| && k < w + |data| - |buf| then data[|buf| - w + k]
                    else if w <= k < w + |data| then data[k - w]
                    else buf[k]
  }

  // What a longer copy puts into the memory behind a ring of n: the end of the data.
  predicate Spilled(memory: seq<Byte>, n: nat, w: nat, data: seq<Byte>) {
    && w <= n <= |memory| && 2 * n - w < |data| <= |memory| + n - w
    && memory[n..n + (|data| - (2 * n - w))] == data[2 * n - w..]
  }

  // The memory after one copy, and after two.
  lemma OnePiece(memory: seq<Byte>, n: nat, w: nat, data: seq<Byte>)
    requires n <= |memory| && w + |data| <= n
    ensures var memory' := Overwrite(memory, w, data);
            Copied(memory[..n], w, data, memory'[..n]) && memory'[n..] == memory[n..]
  {
  }

  lemma TwoPieces(memory: seq<Byte>, n: nat, w: nat, data: seq<Byte>)
    requires w <= n <= |memory| && n < w + |data| <= n + |memory|
    ensures var memory' := Overwrite(Overwrite(memory, w, data[..n - w]), 0, data[n - w..]);
            if |data| <= 2 * n - w
            then Copied(memory[..n], w, data, memory'[..n]) && memory'[n..] == memory[n..]
            else Spilled(memory', n, w, data)
  {
    var once := Overwrite(memory, w, data[..n - w]);
    assert |data| <= 2 * n - w ==> once[n..] == memory[n..];
    forall k | 0 <= k < n
      ensures once[k] == if k < w then memory[k] else data[k - w]
    {
    }
  }

  // Where slot w stands for the slot behind the c bytes from r on.
  predicate Behind(r: nat, c: nat, w: nat, n: nat) {
    Slot(r, c, n) == if w == n then 0 else w
  }

  lemma AppendFits(buf: seq<Byte>, r: nat, c: nat, w: nat, data: seq<Byte>, buf': seq<Byte>)
    requires r < |buf| && c + |data| <= |buf| && 0 < |data| && Behind(r, c, w, |buf|)
    requires Copied(buf, w, data, buf')
    ensures Ring(buf', r, c + |data|) == LastN(Ring(buf, r, c) + data, |buf|)
  {
    var q := Ring(buf, r, c) + data;
    forall i | 0 <= i < c + |data|
      ensures Ring(buf', r, c + |data|)[i] == q[i]
    {
    }
  }

  // With d bytes more than fit, the ring goes on from slot r + d with the last |buf| bytes.
  lemma AppendDrops(buf: seq<Byte>, r: nat, c: nat, w: nat, data: seq<Byte>, buf': seq<Byte>, r': nat)
    requires r < |buf| && c <= |buf| < c + |data| && Behind(r, c, w, |buf|)
    requires Copied(buf, w, data, buf')
    requires r' < |buf| && r' == (r + (c + |data| - |buf|)) % |buf|
    ensures Ring(buf', r', |buf|) == LastN(Ring(buf, r, c) + data, |buf|)
  {
    var n, d := |buf|, c + |data| - |buf|;
    ModOnce(r + d, n);
    var q := Ring(buf, r, c) + data;
    forall i | 0 <= i < n
      ensures Ring(buf', r', n)[i] == q[d + i]
    {
    }
  }

  // Taking size bytes from the front.
  lemma TakeFront(buf: seq<Byte>, r: nat, c: nat, size: nat)
    requires r < |buf| && size <= c <= |buf|
    ensures Slot(r, size, |buf|) < |buf|
    ensures Ring(buf, Slot(r, size, |buf|), c - size) == Ring(buf, r, c)[size..]
    ensures Ring(buf, r, size) == Ring(buf, r, c)[..size]
  {
  }

  // The indices a write leaves, in the arithmetic of the code.
  function ReadIdxAfter(r: nat, c: nat, n: nat, size: nat): nat
    requires n > 0
  {
    if size + c > n then (r + (size + c - n)) % n else r
  }

  function CountKept(c: nat, n: nat, size: nat): nat {
    if size + c > n then (c - (size + c - n)) % WORD_LIMIT else c
  }

  function CountAfter(c: nat, n: nat, size: nat): nat { (CountKept(c, n, size) + size) % WORD_LIMIT }

  function WriteIdxAfter(w: nat, n: nat, size: nat): int
    requires n > 0
  {
    if w + size <= n then (w + size) % n else size - (n - w)
  }

  // The write index is the slot behind the contents. The index one past the last slot,
  // which a single write longer than the ring can leave, stands for slot 0.
  predicate Sound(r: nat, c: nat, w: nat, n: nat) {
    0 < n < 0x8000_0000 && r < n && c <= n && w <= n && Behind(r, c, w, n)
  }

  lemma IndicesAfterWrite(r: nat, c: nat, w: nat, n: nat, size: nat)
    requires Sound(r, c, w, n) && 0 < size <= 2 * n - w
    ensures var r', c', w' := ReadIdxAfter(r, c, n, size), CountAfter(c, n, size), WriteIdxAfter(w, n, size);
            && c' == (if size + c > n then n else size + c)
            && w' >= 0 && Sound(r', c', w', n)
            && (w < n && size <= n ==> w' < n)
  {
    ModOnce(w + size, n);
    if size + c > n {
      ModOnce(r + (size + c - n), n);
      WrappedCount(c, n, size);
    }
  }

  // A longer write than fits from the write index on and once more leaves the index outside.
  lemma IndexInsideExactly(w: nat, n: nat, size: nat)
    requires w <= n && 0 < n
    ensures WriteIdxAfter(w, n, size) <= n <==> size <= 2 * n - w
  {
    if w + size <= n {
      ModOnce(w + size, n);
    }
  }

  // Five bytes written to a new ring of two: the last of them lands behind it.
  lemma FiveIntoTwo()
    ensures var memory' := Overwrite(Overwrite([0, 0, 9], 0, [1, 2]), 0, [3, 4, 5]);
            Spilled(memory', 2, 0, [1, 2, 3, 4, 5]) && memory'[2] == 5
    ensures WriteIdxAfter(0, 2, 5) == 3
  {
    var data: seq<Byte> := [1, 2, 3, 4, 5];
    TwoPieces([0, 0, 9], 2, 0, data);
    assert data[..2] == [1, 2] && data[2..] == [3, 4, 5];
  }

  // An unsigned count that went below zero comes back when the size is added.
  lemma WrappedCount(c: nat, n: nat, size: nat)
    requires c <= n && size + c > n && size <= 2 * n && n < 0x8000_0000
    ensures CountAfter(c, n, size) == n
  {
  }

  // memcpy between two buffers.
  method MemCpy(dst: array<Byte>, to: nat, src: array<Byte>, from: nat, size: nat)
    requires dst != src && to + size <= dst.Length && from + size <= src.Length
    modifies dst
    ensures dst[..] == Overwrite(old(dst[..]), to, src[from..from + size])
  {
    ghost var before := dst[..];
    OverwriteNothing(before, to);
    for i := 0 to size
      invariant dst[..] == Overwrite(before, to, src[from..from + i])
    {
      dst[to + i] := src[from + i];
      OverwriteNext(before, to, src[from..from + i], src[from + i]);
      assert src[from..from + i] + [src[from + i]] == src[from..from + i + 1];
    }
  }

  // Two pieces of a buffer, the second from its start, one behind the other.
  method CopyTwo(src: array<Byte>, from: nat, first: nat, second: nat, out: array<Byte>, at: nat)
    requires src != out && from + first <= src.Length && second <= src.Length && at + first + second <= out.Length
    modifies out
    ensures out[..] == Overwrite(old(out[..]), at, src[from..from + first] + src[0..second])
  {
    hide Overwrite;
    ghost var s := out[..];
    MemCpy(out, at, src, from, first);
    ghost var s1 := out[..];
    MemCpy(out, at + first, src, 0, second);
    TwoOverwrites(s, s1, out[..], at, src[from..from + first], src[0..second]);
  }

  lemma TwoOverwrites(s: seq<Byte>, s1: seq<Byte>, s2: seq<Byte>, at: nat, a: seq<Byte>, b: seq<Byte>)
    requires at + |a| + |b| <= |s| == |s1|
    requires s1 == Overwrite(s, at, a) && s2 == Overwrite(s1, at + |a|, b)
    ensures s2 == Overwrite(s, at, a + b)
  {
    OverwriteTwice(s, at, a, b);
  }

  lemma OverwriteNext(s: seq<Byte>, at: nat, bytes: seq<Byte>, b: Byte)
    requires at + |bytes| < |s|
    ensures Overwrite(s, at, bytes)[at + |bytes| := b] == Overwrite(s, at, bytes + [b])
  {
  }

  // A piece of a ring that goes around the end, in its two halves.
  lemma RingPieces(memory: seq<Byte>, n: nat, r: nat, c: nat)
    requires n <= |memory| && r < n && c <= n
    ensures Slot(r, c, n) == if r + c < n then r + c else r + c - n
    ensures Ring(memory[..n], r, c) ==
      if r + c <= n then memory[r..r + c] else memory[r..n] + memory[0..r + c - n]
  {
  }

  // The indices of a write and its copying together append to the contents.
  lemma WriteAppends(buf: seq<Byte>, r: nat, c: nat, w: nat, data: seq<Byte>, buf': seq<Byte>)
    requires Sound(r, c, w, |buf|) && 0 < |data| <= 2 * |buf| - w && Copied(buf, w, data, buf')
    ensures var n := |buf|;
            var r', c', w' := ReadIdxAfter(r, c, n, |data|), CountAfter(c, n, |data|), WriteIdxAfter(w, n, |data|);
            && w' >= 0 && Sound(r', c', w', n)
            && Ring(buf', r', c') == LastN(Ring(buf, r, c) + data, n)
            && (w < n && |data| <= n ==> w' < n)
  {
    hide LastN, Ring, Copied;
    IndicesAfterWrite(r, c, w, |buf|, |data|);
    if c + |data| <= |buf| {
      AppendFits(buf, r, c, w, data, buf');
    } else {
      AppendDrops(buf, r, c, w, data, buf', ReadIdxAfter(r, c, |buf|, |data|));
    }
  }

  class PipeFS {
    // The ring is the first bufferSize bytes; whatever lies behind it in memory follows.
    const memory: array<Byte>
    const bufferSize: nat
    var readIdx: nat
    var writeIdx: nat
    var count: nat

    ghost predicate Valid()
      reads this
    {
      bufferSize <= memory.Length && Sound(readIdx, count, writeIdx, bufferSize)
    }

    ghost function Contents(): (q: seq<Byte>)
      requires Valid()
      reads this, memory
      ensures |q| == count
    {
      Ring(memory[..bufferSize], readIdx, count)
    }

    lemma IsSmall()
      requires Valid()
      ensures 0 < bufferSize < 0x8000_0000 && bufferSize <= memory.Length
      ensures writeIdx <= bufferSize && |Contents()| <= bufferSize
    {
    }

    constructor (memory: array<Byte>, bufferSize: nat)
      requires 0 < bufferSize <= memory.Length && bufferSize < 0x8000_0000
      modifies memory
      ensures Valid() && Contents() == [] && writeIdx < bufferSize
      ensures this.memory == memory && this.bufferSize == bufferSize
      ensures memory[bufferSize..] == old(memory[bufferSize..])
    {
      this.memory := memory;
      this.bufferSize := bufferSize;
      readIdx, writeIdx, count := 0, 0, 0;
      new;
      for i := 0 to bufferSize
        modifies memory
        invariant memory[bufferSize..] == old(memory[bufferSize..])
      {
        memory[i] := 0;
      }
    }

    // The copying half of a read: one piece, or two around the end of the buffer.
    method CopyOut(size: nat, out: array<Byte>, at: nat)
      requires Valid() && size <= count && out != memory && at + size <= out.Length
      modifies this`readIdx, out
      ensures readIdx == Slot(old(readIdx), size, bufferSize)
      ensures out[..] == Overwrite(old(out[..]), at, Ring(memory[..][..bufferSize], old(readIdx), size))
    {
      RingPieces(memory[..], bufferSize, readIdx, size);
      ModIsSlot(readIdx, size, bufferSize);
      hide Ring, Slot, Overwrite;
      if readIdx + size <= bufferSize {
        MemCpy(out, at, memory, readIdx, size);
        readIdx := (readIdx + size) % bufferSize;
      } else {
        var firstChunk := bufferSize - readIdx;
        CopyTwo(memory, readIdx, firstChunk, size - firstChunk, out, at);
        readIdx := size - firstChunk;
      }
    }

    // Takes size bytes from the front, all of them or none.
    method Read(size: nat, out: array<Byte>, at: nat) returns (res: int)
      requires Valid() && out != memory && at + size <= out.Length
      modifies this`readIdx, this`count, out
      ensures Valid()
      ensures size > |old(Contents())| ==> res == -1 && Contents() == old(Contents()) && out[..] == old(out[..])
      ensures size <= |old(Contents())| ==>
        && res == size
        && Contents() == old(Contents())[size..]
        && out[..] == Overwrite(old(out[..]), at, old(Contents())[..size])
    {
      if size > count {
        return -1;
      }
      hide Ring, Overwrite;
      var bytesAvailable := count;
      var toRead := if size > bytesAvailable then bytesAvailable else size;
      assert memory[..][..bufferSize] == memory[..bufferSize];
      TakeFront(memory[..bufferSize], readIdx, count, size);
      CopyOut(toRead, out, at);
      count := count - toRead;
      res := toRead;
    }

    // The first half of a write: the bytes that have to go are dropped from the front.
    method Discard(size: nat)
      requires 0 < bufferSize
      modifies this`readIdx, this`count
      ensures readIdx == ReadIdxAfter(old(readIdx), old(count), bufferSize, size)
      ensures count == CountKept(old(count), bufferSize, size)
    {
      if size + count > bufferSize {
        var toDiscard := size + count - bufferSize;
        readIdx := (readIdx + toDiscard) % bufferSize;
        count := (count - toDiscard) % WORD_LIMIT;
      }
    }

    // The copying half of a write: one piece, or two behind the end of the buffer.
    method CopyIn(data: array<Byte>, from: nat, size: nat)
      requires 0 < bufferSize <= memory.Length && writeIdx <= bufferSize && 0 < size
      requires data != memory && from + size <= data.Length
      requires writeIdx + size <= bufferSize || size - (bufferSize - writeIdx) <= memory.Length
      modifies this`writeIdx, memory
      ensures writeIdx == WriteIdxAfter(old(writeIdx), bufferSize, size)
      ensures size <= 2 * bufferSize - old(writeIdx) ==>
        && Copied(old(memory[..bufferSize]), old(writeIdx), data[from..from + size], memory[..bufferSize])
        && memory[bufferSize..] == old(memory[bufferSize..])
      ensures size > 2 * bufferSize - old(writeIdx) ==>
        Spilled(memory[..], bufferSize, old(writeIdx), data[from..from + size])
    {
      hide Copied, Spilled, Overwrite;
      ghost var before, bytes := memory[..], data[from..from + size];
      assert before[..bufferSize] == memory[..bufferSize] && before[bufferSize..] == memory[bufferSize..];
      if writeIdx + size <= bufferSize {
        OnePiece(before, bufferSize, writeIdx, bytes);
        MemCpy(memory, writeIdx, data, from, size);
        writeIdx := (writeIdx + size) % bufferSize;
      } else {
        var firstChunk := bufferSize - writeIdx;
        TwoPieces(before, bufferSize, writeIdx, bytes);
        assert data[from..from + firstChunk] == bytes[..firstChunk];
        assert data[from + firstChunk..from + size] == bytes[firstChunk..];
        MemCpy(memory, writeIdx, data, from, firstChunk);
        MemCpy(memory, 0, data, from + firstChunk, size - firstChunk);
        writeIdx := size - firstChunk;
      }
      assert memory[..][..bufferSize] == memory[..bufferSize] && memory[..][bufferSize..] == memory[bufferSize..];
    }

    // Appends the bytes and keeps the last bufferSize of everything. The bytes stay inside
    // the ring exactly up to a length of twice its size less the write index.
    method Write(data: array<Byte>, from: nat, size: nat) returns (res: int)
      requires Valid() && data != memory && from + size <= data.Length
      requires size + bufferSize < WORD_LIMIT
      requires writeIdx + size <= bufferSize || size - (bufferSize - writeIdx) <= memory.Length
      modifies this, memory
      ensures res == size
      ensures size <= 2 * bufferSize - old(writeIdx) ==>
        && Valid()
        && Contents() == LastN(old(Contents()) + data[from..from + size], bufferSize)
        && memory[bufferSize..] == old(memory[bufferSize..])
      ensures old(writeIdx) < bufferSize && size <= bufferSize ==> writeIdx < bufferSize
      ensures size > 2 * bufferSize - old(writeIdx) ==>
        Spilled(memory[..], bufferSize, old(writeIdx), data[from..from + size])
    {
      if size == 0 {
        assert data[from..from] == [];
        assert LastN(Contents() + [], bufferSize) == Contents();
        return 0;
      }
      hide Slot, LastN, Ring, Copied, Spilled;
      ghost var buf, bytes, r0, w0, c0 := memory[..bufferSize], data[from..from + size], readIdx, writeIdx, count;
      hide ReadIdxAfter, CountKept, WriteIdxAfter;
      Discard(size);
      CopyIn(data, from, size);
      count := (count + size) % WORD_LIMIT;
      res := size;
      assert count == CountAfter(c0, bufferSize, size);
      hide CountAfter;
      if size <= 2 * bufferSize - w0 {
        WriteAppends(buf, r0, c0, w0, bytes, memory[..bufferSize]);
      }
    }
  }

  // nmemb writes of size bytes each keep what one write of them all would keep, also when
  // together they are longer than the ring.
  method PipeWrite(fs: PipeFS, size: nat, nmemb: nat, input: array<Byte>) returns (res: nat)
    requires fs.Valid() && size <= fs.bufferSize
    requires input != fs.memory && size * nmemb <= input.Length
    modifies fs, fs.memory
    ensures res == nmemb
    ensures fs.Valid()
    ensures fs.Contents() == LastN(old(fs.Contents()) + input[..size * nmemb], fs.bufferSize)
    ensures fs.memory[fs.bufferSize..] == old(fs.memory[fs.bufferSize..])
  {
    hide Sound, Ring, LastN;
    var at := 0;
    ghost var q, n := fs.Contents(), fs.bufferSize;
    fs.IsSmall();
    LastNAll(q, n);
    assert input[..0] == [];
    for i := 0 to nmemb
      invariant at == size * i
      invariant fs.Valid()
      invariant at <= input.Length && fs.Contents() == LastN(q + input[..at], n)
      invariant fs.memory[n..] == old(fs.memory[n..])
    {
      Arithmetic.NextPiece(size, i, nmemb);
      NextBlock(q, input[..], at, size, n);
      fs.IsSmall();
      var _ := fs.Write(input, at, size);
      at := at + size;
    }
    return nmemb;
  }

  // One more block of an input, behind those that have been written.
  lemma NextBlock(q: seq<Byte>, input: seq<Byte>, at: nat, size: nat, n: nat)
    requires at + size <= |input|
    ensures LastN(LastN(q + input[..at], n) + input[at..at + size], n) == LastN(q + input[..at + size], n)
  {
    LastNTwice(q, input[..at], input[at..at + size], n);
    assert q + input[..at] + input[at..at + size] == q + input[..at + size];
  }

  lemma LastNAll(q: seq<Byte>, n: nat)
    requires |q| <= n
    ensures LastN(q + [], n) == q
  {
  }

  // Up to nmemb reads of size bytes each. A block that is not there is skipped and the result
  // is nmemb all the same: only the first delivered blocks are filled.
  method PipeRead(fs: PipeFS, size: nat, nmemb: nat, out: array<Byte>) returns (res: nat, ghost delivered: nat)
    requires fs.Valid() && out != fs.memory && size * nmemb <= out.Length
    modifies fs`readIdx, fs`count, out
    ensures res == nmemb
    ensures fs.Valid()
    ensures delivered <= nmemb && size * delivered <= |old(fs.Contents())|
    ensures delivered < nmemb ==> |old(fs.Contents())| - size * delivered < size
    ensures size * delivered <= out.Length
    ensures fs.Contents() == old(fs.Contents())[size * delivered..]
    ensures out[..] == Overwrite(old(out[..]), 0, old(fs.Contents())[..size * delivered])
  {
    hide Sound, Ring;
    var at := 0;
    delivered := 0;
    ghost var q, taken := fs.Contents(), 0;
    for i := 0 to nmemb
      invariant at == size * i <= out.Length
      invariant fs.Valid()
      invariant delivered <= i && taken == size * delivered <= |q| && taken <= at
      invariant delivered < i ==> |q| - taken < size
      invariant delivered == i ==> taken == at
      invariant fs.Contents() == q[taken..]
      invariant out[..] == Overwrite(old(out[..]), 0, q[..taken])
    {
      Arithmetic.NextPiece(size, i, nmemb);
      var r := fs.Read(size, out, at);
      if size <= |q| - taken {
        assert delivered == i;
        OverwriteTwice(old(out[..]), 0, q[..taken], q[taken..][..size]);
        assert q[..taken] + q[taken..][..size] == q[..taken + size];
        delivered, taken := delivered + 1, taken + size;
      }
      at := at + size;
    }
    return nmemb, delivered;
  }

  // Runs of writes and reads.
  datatype Op = Put(bytes: seq<Byte>) | Get(size: nat)

  // The bytes a pipe holds, all bytes ever put and got, and for every byte that has left the
  // pipe, in the order of the puts, whether it was got or dropped.
  datatype History = History(held: seq<Byte>, put: seq<Byte>, got: seq<Byte>, fate: seq<bool>)

  function Step(h: History, op: Op, n: nat): History {
    match op
    case Put(bytes) =>
      var held := LastN(h.held + bytes, n);
      History(held, h.put + bytes, h.got,
              h.fate + seq(|h.held + bytes| - |held|, i => false))
    case Get(size) =>
      if size > |h.held| then h
      else History(h.held[size..], h.put, h.got + h.held[..size], h.fate + seq(size, i => true))
  }

  function Run(ops: seq<Op>, n: nat): History {
    if ops == [] then History([], [], [], [])
    else Step(Run(ops[..|ops| - 1], n), ops[|ops| - 1], n)
  }

  // The bytes marked true.
  function Chosen(s: seq<Byte>, mark: seq<bool>): (r: seq<Byte>)
    requires |s| == |mark|
  {
    if s == [] then []
    else Chosen(s[..|s| - 1], mark[..|s| - 1]) + (if mark[|s| - 1] then [s[|s| - 1]] else [])
  }

  lemma {:induction false} ChosenAppend(s: seq<Byte>, mark: seq<bool>, t: seq<Byte>, all: bool)
    requires |s| == |mark|
    ensures Chosen(s + t, mark + seq(|t|, i => all)) == Chosen(s, mark) + (if all then t else [])
  {
    var m := mark + seq(|t|, i => all);
    if t == [] {
      assert s + t == s && m == mark;
    } else {
      var k := |t| - 1;
      ChosenAppend(s, mark, t[..k], all);
      assert (s + t)[..|s| + k] == s + t[..k];
      assert m[..|s| + k] == mark + seq(k, i => all);
      assert t[..k] + [t[k]] == t;
    }
  }

  // Every byte put has been got once, or been dropped, or is still held, and in that order:
  // the bytes that have left are the first of the puts, what was got is what was not dropped
  // of them, and the pipe holds the rest.
  ghost predicate Accounted(h: History, n: nat) {
    && |h.held| <= n
    && |h.fate| <= |h.put|
    && h.held == h.put[|h.fate|..]
    && h.got == Chosen(h.put[..|h.fate|], h.fate)
  }

  lemma PutAccounted(h: History, bytes: seq<Byte>, n: nat)
    requires Accounted(h, n)
    ensures Accounted(Step(h, Put(bytes), n), n)
  {
    var all, gone := h.held + bytes, |h.fate|;
    var d := |all| - |LastN(all, n)|;
    Tails(h.put, bytes, gone, d);
    ChosenAppend(h.put[..gone], h.fate, all[..d], false);
    assert LastN(all, n) == all[d..];
    hide LastN, Chosen;
  }

  lemma Tails(put: seq<Byte>, bytes: seq<Byte>, gone: nat, d: nat)
    requires gone <= |put| && d <= |put| - gone + |bytes|
    ensures (put + bytes)[..gone + d] == put[..gone] + (put[gone..] + bytes)[..d]
    ensures (put + bytes)[gone + d..] == (put[gone..] + bytes)[d..]
  {
  }

  lemma GetAccounted(h: History, size: nat, n: nat)
    requires Accounted(h, n)
    ensures Accounted(Step(h, Get(size), n), n)
  {
    var gone := |h.fate|;
    if size <= |h.held| {
      assert h.put[..gone + size] == h.put[..gone] + h.held[..size];
      ChosenAppend(h.put[..gone], h.fate, h.held[..size], true);
    }
  }

  lemma {:induction false} EveryRunIsAccounted(ops: seq<Op>, n: nat)
    ensures Accounted(Run(ops, n), n)
  {
    if ops != [] {
      EveryRunIsAccounted(ops[..|ops| - 1], n);
      var h := Run(ops[..|ops| - 1], n);
      match ops[|ops| - 1]
      case Put(bytes) => PutAccounted(h, bytes, n);
      case Get(size) => GetAccounted(h, size, n);
    }
  }

  function Dropped(fate: seq<bool>): nat {
    if fate == [] then 0
    else Dropped(fate[..|fate| - 1]) + (if fate[|fate| - 1] then 0 else 1)
  }

  lemma {:induction false} ChosenLength(s: seq<Byte>, mark: seq<bool>)
    requires |s| == |mark|
    ensures |Chosen(s, mark)| + Dropped(mark) == |s|
    ensures Dropped(mark) == 0 ==> Chosen(s, mark) == s
  {
    if s != [] {
      var k := |s| - 1;
      ChosenLength(s[..k], mark[..k]);
      assert s[..k] + [s[k]] == s;
    }
  }

  // Bytes put are bytes got, bytes dropped and bytes held; with nothing dropped the pipe is
  // a queue.
  lemma Conservation(ops: seq<Op>, n: nat)
    ensures var h := Run(ops, n);
            && |h.put| == |h.got| + Dropped(h.fate) + |h.held|
            && (Dropped(h.fate) == 0 ==> h.got + h.held == h.put)
  {
    EveryRunIsAccounted(ops, n);
    Totals(Run(ops, n), n);
  }

  lemma Totals(h: History, n: nat)
    requires Accounted(h, n)
    ensures |h.put| == |h.got| + Dropped(h.fate) + |h.held|
    ensures Dropped(h.fate) == 0 ==> h.got + h.held == h.put
  {
    var gone := h.put[..|h.fate|];
    ChosenLength(gone, h.fate);
    hide Chosen, Dropped;
    assert gone + h.held == h.put;
  }

  // Every write of the run is no longer than the ring.
  predicate Short(ops: seq<Op>, n: nat) {
    forall i :: 0 <= i < |ops| && ops[i].Put? ==> |ops[i].bytes| <= n
  }

  // A run on a new pipe: what it holds and what has been read are those of the run.
  method Execute(fs: PipeFS, ops: seq<Op>) returns (got: seq<Byte>)
    requires fs.Valid() && fs.Contents() == [] && Short(ops, fs.bufferSize)
    modifies fs, fs.memory
    ensures fs.Valid()
    ensures fs.Contents() == Run(ops, fs.bufferSize).held && got == Run(ops, fs.bufferSize).got
  {
    if ops == [] {
      got := [];
    } else {
      var k := |ops| - 1;
      got := Execute(fs, ops[..k]);
      var more := Perform(fs, ops[k], Run(ops[..k], fs.bufferSize));
      got := got + more;
    }
  }

  method Perform(fs: PipeFS, op: Op, ghost h: History) returns (got: seq<Byte>)
    requires fs.Valid() && fs.Contents() == h.held
    requires op.Put? ==> |op.bytes| <= fs.bufferSize
    modifies fs, fs.memory
    ensures fs.Valid()
    ensures fs.Contents() == Step(h, op, fs.bufferSize).held && h.got + got == Step(h, op, fs.bufferSize).got
  {
    match op
    case Put(bytes) =>
      PerformPut(fs, bytes);
      got := [];
    case Get(size) =>
      got := PerformGet(fs, size);
  }

  method PerformPut(fs: PipeFS, bytes: seq<Byte>)
    requires fs.Valid() && |bytes| <= fs.bufferSize
    modifies fs, fs.memory
    ensures fs.Valid() && fs.Contents() == LastN(old(fs.Contents()) + bytes, fs.bufferSize)
  {
    fs.IsSmall();
    hide Sound, Ring, LastN;
    var data := new Byte[|bytes|](i requires 0 <= i < |bytes| => bytes[i]);
    assert data[0..0 + |bytes|] == bytes;
    var _ := fs.Write(data, 0, |bytes|);
  }

  method PerformGet(fs: PipeFS, size: nat) returns (got: seq<Byte>)
    requires fs.Valid()
    modifies fs
    ensures fs.Valid()
    ensures var q := old(fs.Contents());
            if size > |q| then got == [] && fs.Contents() == q
            else got == q[..size] && fs.Contents() == q[size..]
  {
    hide Sound, Ring;
    var out := new Byte[size];
    var res := fs.Read(size, out, 0);
    got := if res >= 0 then out[..] else [];
  }
}
