// The keyboard buffer of a process: a ring of characters in which zero marks an empty slot.
module Keyboard {
  import opened Words

  const SIZE := 1024

  // The indices are ints that are converted to unsigned before the remainder is taken, and
  // 2^32 is a multiple of the size, so they are kept modulo 2^32 here.
  datatype State = State(buffer: seq<Byte>, head: Word, tail: Word)
  type Ring = s: State | |s.buffer| == SIZE witness State(seq(SIZE, i => 0), 0, 0)

  // An index moved on by k.
  function Moved(w: Word, k: nat): Word { (w + k) % WORD_LIMIT }

  // The slot i places behind the head.
  function At(s: Ring, i: nat): Byte { s.buffer[(s.head + i) % SIZE] }

  function Pushed(s: Ring, c: Byte): Ring {
    State(s.buffer[s.tail % SIZE := c], s.head, Moved(s.tail, 1))
  }

  // Without a current task a pop does nothing.
  function PopResult(s: Ring, running: bool): Byte { if running then At(s, 0) else 0 }

  function Popped(s: Ring, running: bool): Ring {
    if PopResult(s, running) == 0 then s
    else State(s.buffer[s.head % SIZE := 0], Moved(s.head, 1), s.tail)
  }

  class KeyboardBuffer {
    const buffer: array<Byte>
    var head: Word
    var tail: Word

    constructor ()
      ensures buffer.Length == SIZE == 1024 && fresh(buffer)
      ensures Holds(Value(), [])
    {
      buffer := new Byte[SIZE](i => 0);
      head, tail := 0, 0;
    }

    ghost function Value(): Ring
      requires buffer.Length == SIZE
      reads this, buffer
    {
      State(buffer[..], head, tail)
    }
  }

  method PushKey(process: KeyboardBuffer?, c: Byte)
    requires process != null ==> process.buffer.Length == SIZE
    modifies if process == null then {} else {process, process.buffer}
    ensures process != null ==> process.Value() == Pushed(old(process.Value()), c)
  {
    if process == null {
      return;
    }
    var bufferIndex := process.tail % SIZE;
    process.buffer[bufferIndex] := c;
    process.tail := (process.tail + 1) % WORD_LIMIT;
  }

  method PopKey(running: bool, process: KeyboardBuffer) returns (c: Byte)
    requires process.buffer.Length == SIZE
    modifies process, process.buffer
    ensures c == PopResult(old(process.Value()), running)
    ensures process.Value() == Popped(old(process.Value()), running)
  {
    if !running {
      return 0;
    }
    var bufferIndex := process.head % SIZE;
    c := process.buffer[bufferIndex];
    if c == 0 {
      return 0;
    }
    process.buffer[bufferIndex] := 0;
    process.head := (process.head + 1) % WORD_LIMIT;
  }

  // The slots from the head on hold the characters of q, and every other slot is zero.
  ghost predicate Holds(s: Ring, q: seq<Byte>) {
    && |q| <= SIZE && 0 !in q
    && s.tail == Moved(s.head, |q|)
    && forall i :: 0 <= i < SIZE ==> At(s, i) == if i < |q| then q[i] else 0
  }

  lemma AfterPush(s: Ring, c: Byte, unread: nat, i: nat)
    requires unread <= SIZE && s.tail == Moved(s.head, unread) && i < SIZE
    ensures At(Pushed(s, c), i) == if i == unread % SIZE then c else At(s, i)
    ensures Pushed(s, c).tail == Moved(s.head, unread + 1) && Pushed(s, c).head == s.head
  {
    TailSlot(s.head, unread);
    SameSlot(s.head, unread, i);
    AddTwice(s.head, unread, 1);
  }

  lemma TailSlot(w: Word, k: nat)
    ensures Moved(w, k) % SIZE == (w + k) % SIZE
  {
    var q := (w + k) / WORD_LIMIT;
    assert (w + k) % WORD_LIMIT == w + k - q * 0x40_0000 * SIZE;
  }

  lemma SameSlot(w: Word, k: nat, i: nat)
    requires k <= SIZE && i < SIZE
    ensures (w + k) % SIZE == (w + i) % SIZE <==> i == k % SIZE
  {
  }

  lemma AddTwice(w: Word, a: nat, b: nat)
    ensures Moved(w, 0) == w && Moved(Moved(w, a), b) == Moved(w, a + b)
  {
  }

  lemma AfterPop(s: Ring, i: nat)
    requires i < SIZE && At(s, 0) != 0
    ensures At(Popped(s, true), i) == if i + 1 < SIZE then At(s, i + 1) else 0
  {
  }

  // A push appends to the queue exactly when the character is not zero and a slot is free.
  lemma PushAppends(s: Ring, q: seq<Byte>, c: Byte)
    requires Holds(s, q)
    ensures Holds(Pushed(s, c), q + [c]) <==> c != 0 && |q| < 1024
  {
    hide At, Pushed;
    if c != 0 && |q| < SIZE {
      AfterPush(s, c, |q|, 0);
      forall i | 0 <= i < SIZE
        ensures At(Pushed(s, c), i) == if i < |q + [c]| then (q + [c])[i] else 0
      {
        AfterPush(s, c, |q|, i);
      }
    } else if c == 0 {
      assert (q + [c])[|q|] == 0;
    }
  }

  // A pop takes the first character. It returns zero, and then changes nothing, exactly when
  // there is none or no task is current.
  lemma PopTakes(s: Ring, q: seq<Byte>, running: bool)
    requires Holds(s, q)
    ensures PopResult(s, running) == 0 <==> q == [] || !running
    ensures running && q != [] ==> PopResult(s, running) == q[0] && Holds(Popped(s, running), q[1..])
    ensures !running || q == [] ==> Popped(s, running) == s
  {
    assert At(s, 0) == if 0 < |q| then q[0] else 0;
    if running && q != [] {
      var s' := Popped(s, true);
      forall i | 0 <= i < SIZE
        ensures At(s', i) == if i < |q[1..]| then q[1..][i] else 0
      {
        AfterPop(s, i);
        if i + 1 < SIZE {
          assert At(s, i + 1) == if i + 1 < |q| then q[i + 1] else 0;
        }
      }
    }
  }

  // Runs, and what the characters popped in them are for the ring and for a queue.
  datatype Op = Push(c: Byte) | Pop(running: bool)

  function After(s: Ring, ops: seq<Op>): Ring
    decreases ops
  {
    if ops == [] then s
    else After(match ops[0] case Push(c) => Pushed(s, c) case Pop(running) => Popped(s, running), ops[1..])
  }

  function Results(s: Ring, ops: seq<Op>): seq<Byte>
    decreases ops
  {
    if ops == [] then []
    else match ops[0]
      case Push(c) => Results(Pushed(s, c), ops[1..])
      case Pop(running) => [PopResult(s, running)] + Results(Popped(s, running), ops[1..])
  }

  // A run on the buffer of a process.
  method Execute(process: KeyboardBuffer, ops: seq<Op>) returns (results: seq<Byte>)
    requires process.buffer.Length == SIZE
    modifies process, process.buffer
    ensures process.Value() == After(old(process.Value()), ops)
    ensures results == Results(old(process.Value()), ops)
    decreases ops
  {
    results := [];
    if ops != [] {
      hide Pushed, Popped, PopResult;
      match ops[0] {
        case Push(c) =>
          PushKey(process, c);
        case Pop(running) =>
          var c := PopKey(running, process);
          results := [c];
      }
      var rest := Execute(process, ops[1..]);
      results := results + rest;
    }
  }

  function QueueStep(q: seq<Byte>, op: Op): seq<Byte> {
    match op
    case Push(c) => q + [c]
    case Pop(running) => if running && q != [] then q[1..] else q
  }

  function QueueAfter(q: seq<Byte>, ops: seq<Op>): seq<Byte>
    decreases ops
  {
    if ops == [] then q else QueueAfter(QueueStep(q, ops[0]), ops[1..])
  }

  function QueueResults(q: seq<Byte>, ops: seq<Op>): seq<Byte>
    decreases ops
  {
    if ops == [] then []
    else (match ops[0]
          case Push(_) => []
          case Pop(running) => [if running && q != [] then q[0] else 0])
         + QueueResults(QueueStep(q, ops[0]), ops[1..])
  }

  // Every push is of a character other than zero and finds fewer than SIZE unread.
  predicate Fits(q: seq<Byte>, ops: seq<Op>)
    decreases ops
  {
    ops != [] ==>
      && (ops[0].Push? ==> ops[0].c != 0 && |q| < SIZE)
      && Fits(QueueStep(q, ops[0]), ops[1..])
  }

  lemma {:induction false} RunIsFifo(s: Ring, q: seq<Byte>, ops: seq<Op>)
    requires Holds(s, q) && Fits(q, ops)
    ensures Results(s, ops) == QueueResults(q, ops)
    ensures Holds(After(s, ops), QueueAfter(q, ops))
    decreases ops
  {
    hide Holds, At, Pushed, Popped;
    if ops != [] {
      match ops[0]
      case Push(c) =>
        PushAppends(s, q, c);
        RunIsFifo(Pushed(s, c), q + [c], ops[1..]);
      case Pop(running) =>
        PopTakes(s, q, running);
        RunIsFifo(Popped(s, running), QueueStep(q, ops[0]), ops[1..]);
    }
  }

  // The other pushes. Once the head slot is empty while the tail is gap slots short of it,
  // the reader sees nothing of the next gap pushes.
  predicate Stuck(s: Ring, gap: nat) {
    At(s, 0) == 0 && (s.tail + gap) % SIZE == s.head % SIZE
  }

  function Pushes(ops: seq<Op>): nat {
    if ops == [] then 0 else (if ops[0].Push? then 1 else 0) + Pushes(ops[1..])
  }

  lemma StuckAfterPush(s: Ring, gap: nat, c: Byte)
    requires 0 < gap < SIZE && Stuck(s, gap)
    ensures Stuck(Pushed(s, c), gap - 1)
  {
  }

  lemma {:induction false} StuckReadsNothing(s: Ring, gap: nat, ops: seq<Op>)
    requires gap < SIZE && Stuck(s, gap) && Pushes(ops) <= gap
    ensures forall c :: c in Results(s, ops) ==> c == 0
    decreases ops
  {
    if ops != [] {
      assert Stuck(s, gap) ==> PopResult(s, true) == 0;
      hide Stuck, At, Pushed;
      match ops[0]
      case Push(c) =>
        StuckAfterPush(s, gap, c);
        StuckReadsNothing(Pushed(s, c), gap - 1, ops[1..]);
      case Pop(running) =>
        StuckReadsNothing(s, gap, ops[1..]);
    }
  }

  function Pops(n: nat): seq<Op> { seq(n, i => Pop(true)) }

  // q stands in the slots from the head on.
  ghost predicate Starts(s: Ring, q: seq<Byte>) {
    |q| <= SIZE && 0 !in q && forall i :: 0 <= i < |q| ==> At(s, i) == q[i]
  }

  lemma OneAhead(w: Word, n: nat)
    ensures (Moved(w, n + 1) + (SIZE - 1)) % SIZE == Moved(w, n) % SIZE
  {
    AddTwice(w, n, 1);
    AroundOnce(Moved(w, n));
    hide Moved;
  }

  lemma AroundOnce(m: Word)
    ensures (Moved(m, 1) + (SIZE - 1)) % SIZE == m % SIZE
  {
    if m + 1 == WORD_LIMIT {
      assert Moved(m, 1) == 0;
    } else {
      assert Moved(m, 1) == m + 1;
    }
  }

  // Popping the characters that stand from the head on.
  lemma {:induction false} PopsRead(s: Ring, q: seq<Byte>)
    requires Starts(s, q)
    ensures Results(s, Pops(|q|)) == q
    ensures var s' := After(s, Pops(|q|));
            && s'.head == Moved(s.head, |q|) && s'.tail == s.tail
            && At(s', 0) == if |q| < SIZE then At(s, |q|) else 0
    decreases |q|
  {
    if q == [] {
      AddTwice(s.head, 0, 0);
    } else {
      var rest, s1 := q[1..], Popped(s, true);
      FirstPop(s, q);
      OnePop(s, |q|);
      hide At, Popped, PopResult, Starts, Results, After, Moved;
      PopsRead(s1, rest);
      AddTwice(s.head, 1, |rest|);
    }
  }

  lemma OnePop(s: Ring, n: nat)
    requires n > 0
    ensures Results(s, Pops(n)) == [PopResult(s, true)] + Results(Popped(s, true), Pops(n - 1))
    ensures After(s, Pops(n)) == After(Popped(s, true), Pops(n - 1))
  {
    assert Pops(n)[1..] == Pops(n - 1);
  }

  lemma FirstPop(s: Ring, q: seq<Byte>)
    requires q != [] && Starts(s, q)
    ensures PopResult(s, true) == q[0]
    ensures var s1 := Popped(s, true);
            && s1.head == Moved(s.head, 1) && s1.tail == s.tail
            && Starts(s1, q[1..])
            && At(s1, |q| - 1) == if |q| < SIZE then At(s, |q|) else 0
  {
    assert At(s, 0) == q[0];
    AfterPop(s, |q| - 1);
    forall i | 0 <= i < |q| - 1
      ensures At(Popped(s, true), i) == q[1..][i]
    {
      AfterPop(s, i);
      assert At(s, i + 1) == q[i + 1];
    }
  }

  // A zero pushed: what was unread is read in order, and then nothing of the next SIZE - 1
  // pushes is.
  lemma ZeroPushSticks(s: Ring, q: seq<Byte>)
    requires Holds(s, q) && |q| < SIZE
    ensures Results(Pushed(s, 0), Pops(|q|)) == q
    ensures Stuck(After(Pushed(s, 0), Pops(|q|)), SIZE - 1)
  {
    hide At, Pushed, Results, After;
    forall i | 0 <= i <= |q|
      ensures At(Pushed(s, 0), i) == if i < |q| then q[i] else 0
    {
      AfterPush(s, 0, |q|, i);
    }
    AfterPush(s, 0, |q|, 0);
    OneAhead(s.head, |q|);
    PopsRead(Pushed(s, 0), q);
  }

  // A push into a full buffer: the newest character is read first, in place of the oldest,
  // and behind the others nothing of the next SIZE - 1 pushes is.
  lemma FullPushSticks(s: Ring, q: seq<Byte>, c: Byte)
    requires Holds(s, q) && |q| == SIZE && c != 0
    ensures Results(Pushed(s, c), Pops(SIZE)) == [c] + q[1..]
    ensures Stuck(After(Pushed(s, c), Pops(SIZE)), SIZE - 1)
  {
    hide At, Pushed, Results, After;
    var q' := [c] + q[1..];
    forall i | 0 <= i < SIZE
      ensures At(Pushed(s, c), i) == q'[i]
    {
      AfterPush(s, c, SIZE, i);
    }
    AfterPush(s, c, SIZE, 0);
    OneAhead(s.head, SIZE);
    PopsRead(Pushed(s, c), q');
  }

  // A zero pushed into a full buffer: none of the unread characters is read any more, nor
  // anything of the next SIZE - 1 pushes.
  lemma ZeroIntoFullSticks(s: Ring, q: seq<Byte>)
    requires Holds(s, q) && |q| == SIZE
    ensures Stuck(Pushed(s, 0), SIZE - 1)
  {
    hide At, Pushed;
    AfterPush(s, 0, SIZE, 0);
    OneAhead(s.head, SIZE);
    AddTwice(s.head, SIZE, 1);
    WholeRound(s.head);
  }

  lemma WholeRound(w: Word)
    ensures Moved(w, SIZE) % SIZE == w % SIZE
  {
    TailSlot(w, SIZE);
  }
}
