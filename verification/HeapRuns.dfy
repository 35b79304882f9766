// Runs of requests to the heap, from an empty one on.
module HeapRuns {
  import opened Words
  import opened HeapTable
  import opened Heap

  datatype Request = Malloc(size: Word) | Free(block: nat)

  // The table, the size asked for at each live block, and the same for the blocks that were
  // freed in vain.
  datatype State = State(table: Table, sizes: map<nat, Word>, lost: map<nat, Word>)

  function LiveOf(sizes: map<nat, Word>): Live {
    map s | s in sizes :: (sizes[s] + BLOCK_SIZE - 1) / BLOCK_SIZE
  }

  // A malloc of a size that is not zero and fits, or a free of a live block.
  ghost predicate Step(a: State, r: Request, b: State) {
    match r
    case Malloc(size) =>
      && BlocksOf(size) >= 1
      && exists s: nat ::
           && IsFirstFit(a.table, BlocksOf(size), s)
           && b == State(Taken(a.table, s, BlocksOf(size)), a.sizes[s := size], a.lost)
    case Free(block) =>
      && block in a.sizes
      && b == if block < REACH then State(Freed(a.table, block), a.sizes - {block}, a.lost)
              else State(a.table, a.sizes - {block}, a.lost[block := a.sizes[block]])
  }

  ghost predicate IsRun(states: seq<State>, requests: seq<Request>) {
    && |states| == |requests| + 1
    && states[0].sizes == map[] && states[0].lost == map[]
    && (forall i :: 0 <= i < |states[0].table| ==> states[0].table[i] == FREE)
    && forall k :: 0 <= k < |requests| ==> Step(states[k], requests[k], states[k + 1])
  }

  // The table is the encoding of what is live or lost, and of nothing else.
  ghost predicate Sound(a: State) {
    && a.sizes.Keys !! a.lost.Keys
    && (forall s :: s in a.lost ==> s >= REACH)
    && Represents(a.table, LiveOf(a.sizes + a.lost))
  }

  lemma FirstFitIsRun(t: Table, n: nat, s: nat)
    requires IsFirstFit(t, n, s)
    ensures FreeRun(t, s, n)
  {
  }

  lemma StepKeeps(a: State, r: Request, b: State)
    requires Sound(a) && Step(a, r, b)
    ensures Sound(b) && |b.table| == |a.table|
  {
    match r
    case Malloc(size) =>
      var s: nat :| IsFirstFit(a.table, BlocksOf(size), s)
        && b == State(Taken(a.table, s, BlocksOf(size)), a.sizes[s := size], a.lost);
      MallocKeeps(a, size, s);
    case Free(block) =>
      FreeKeepsSound(a, block);
  }

  lemma MallocKeeps(a: State, size: Word, s: nat)
    requires Sound(a) && BlocksOf(size) >= 1 && IsFirstFit(a.table, BlocksOf(size), s)
    ensures Sound(State(Taken(a.table, s, BlocksOf(size)), a.sizes[s := size], a.lost))
  {
    hide Taken, IsFirstFit, Represents, LiveOf;
    var held := a.sizes + a.lost;
    FirstFitIsRun(a.table, BlocksOf(size), s);
    TakeKeeps(a.table, LiveOf(held), s, BlocksOf(size));
    BlocksAreCeiling(size);
    LiveOfBoth(held, map[]);
    LiveOfOne(held, s, size);
    assert a.sizes[s := size] + a.lost == held[s := size];
  }

  lemma FreeKeepsSound(a: State, block: nat)
    requires Sound(a) && block in a.sizes
    ensures block < REACH ==> Sound(State(Freed(a.table, block), a.sizes - {block}, a.lost))
    ensures block >= REACH ==> Sound(State(a.table, a.sizes - {block}, a.lost[block := a.sizes[block]]))
  {
    hide Freed, Represents, LiveOf;
    var held := a.sizes + a.lost;
    LiveOfBoth(held, map[]);
    if block < REACH {
      FreeKeeps(a.table, LiveOf(held), block);
      LiveOfOne(held, block, 0);
      UnionWithout(a.lost, a.sizes, block);
    } else {
      MovedOver(a.sizes, a.lost, block);
    }
  }

  lemma MovedOver(a: map<nat, Word>, b: map<nat, Word>, s: nat)
    requires a.Keys !! b.Keys && s in a
    ensures (a - {s}) + b[s := a[s]] == a + b && (a - {s}).Keys !! b[s := a[s]].Keys
  {
  }

  lemma {:induction false} EveryStateIsSound(states: seq<State>, requests: seq<Request>, k: nat)
    requires IsRun(states, requests) && k < |states|
    ensures Sound(states[k]) && |states[k].table| == |states[0].table|
  {
    if k == 0 {
      assert LiveOf(states[0].sizes + states[0].lost) == map[];
    } else {
      EveryStateIsSound(states, requests, k - 1);
      StepKeeps(states[k - 1], requests[k - 1], states[k]);
    }
  }

  lemma {:induction false} SumOfBoth(a: Live, b: Live)
    requires a.Keys !! b.Keys
    ensures SumOf(a + b) == SumOf(a) + SumOf(b)
    decreases |b|
  {
    NothingToSum();
    hide SumOf;
    if b == map[] {
      assert a + b == a;
    } else {
      var s :| s in b;
      SumStep(a, b, s);
      SumOfBoth(a, b - {s});
    }
  }

  lemma NothingToSum()
    ensures SumOf(map[]) == 0
  {
  }

  lemma SumStep(a: Live, b: Live, s: nat)
    requires a.Keys !! b.Keys && s in b
    ensures SumOf(a + b) == b[s] + SumOf(a + (b - {s})) && SumOf(b) == b[s] + SumOf(b - {s})
  {
    hide SumOf;
    SumWithout(b, s);
    SumWithout(a + b, s);
    UnionWithout(a, b, s);
  }

  lemma UnionWithout<T>(a: map<nat, T>, b: map<nat, T>, s: nat)
    requires s !in a
    ensures a + b - {s} == a + (b - {s})
    ensures b + a - {s} == (b - {s}) + a
  {
  }

  lemma LiveOfBoth(a: map<nat, Word>, b: map<nat, Word>)
    ensures LiveOf(a + b) == LiveOf(a) + LiveOf(b)
    ensures LiveOf(a).Keys == a.Keys
  {
  }

  lemma LiveOfOne(a: map<nat, Word>, s: nat, size: Word)
    ensures LiveOf(a[s := size]) == LiveOf(a)[s := (size + BLOCK_SIZE - 1) / BLOCK_SIZE]
    ensures LiveOf(a - {s}) == LiveOf(a) - {s}
  {
  }

  // At every point of every run the table encodes the extents that are live or lost, and no
  // others, and as many blocks are taken as their sizes need.
  lemma EveryRunIsSound(states: seq<State>, requests: seq<Request>, k: nat)
    requires IsRun(states, requests) && k < |states|
    ensures var a := states[k];
            && Represents(a.table, LiveOf(a.sizes + a.lost))
            && (forall live: Live :: Represents(a.table, live) ==> live == LiveOf(a.sizes + a.lost))
            && CountTaken(a.table) == SumOf(LiveOf(a.sizes)) + SumOf(LiveOf(a.lost))
  {
    EveryStateIsSound(states, requests, k);
    var a := states[k];
    var live := LiveOf(a.sizes + a.lost);
    Conservation(a.table, live);
    LiveOfBoth(a.sizes, a.lost);
    LiveOfBoth(a.lost, a.sizes);
    SumOfBoth(LiveOf(a.sizes), LiveOf(a.lost));
    hide SumOf, CountTaken, LiveOf, IsRun;
    forall other: Live | Represents(a.table, other)
      ensures other == live
    {
      UniqueDecoding(a.table, other, live);
    }
  }

  // Only frees of blocks that can be reached.
  predicate OnlyNear(requests: seq<Request>) {
    forall i :: 0 <= i < |requests| && requests[i].Free? ==> requests[i].block < REACH
  }

  lemma {:induction false} LostByFarFrees(states: seq<State>, requests: seq<Request>, k: nat)
    requires IsRun(states, requests) && k < |states|
    ensures states[k].lost == map[] <==> OnlyNear(requests[..k])
  {
    if k > 0 {
      LostByFarFrees(states, requests, k - 1);
      var r := requests[k - 1];
      assert requests[..k] == requests[..k - 1] + [r];
      assert Step(states[k - 1], r, states[k]);
      if r.Free? && r.block >= REACH {
        assert r.block in states[k].lost;
        assert requests[..k][k - 1] == r;
      }
    }
  }

  // The table is the encoding of the live allocations alone exactly as long as no block 2 GB
  // or more above the start has been freed.
  lemma TableIsLiveExactlyIfNear(states: seq<State>, requests: seq<Request>, k: nat)
    requires IsRun(states, requests) && k < |states|
    ensures Represents(states[k].table, LiveOf(states[k].sizes)) <==> OnlyNear(requests[..k])
  {
    var a := states[k];
    EveryStateIsSound(states, requests, k);
    EveryRunIsSound(states, requests, k);
    LostByFarFrees(states, requests, k);
    if a.lost == map[] {
      assert a.sizes + a.lost == a.sizes;
    } else {
      var s :| s in a.lost;
      assert s in LiveOf(a.sizes + a.lost) && s !in LiveOf(a.sizes);
    }
  }

  // In a heap of at most 2 GB that is always so.
  lemma {:induction false} SmallHeapIsNear(states: seq<State>, requests: seq<Request>, k: nat)
    requires IsRun(states, requests) && k < |states| && |states[0].table| <= REACH
    ensures OnlyNear(requests[..k])
  {
    if k > 0 {
      SmallHeapIsNear(states, requests, k - 1);
      EveryStateIsSound(states, requests, k - 1);
      var a, r := states[k - 1], requests[k - 1];
      assert Step(a, r, states[k]);
      if r.Free? {
        assert r.block in LiveOf(a.sizes + a.lost);
      }
      assert requests[..k] == requests[..k - 1] + [r];
    }
  }

  // A run on the heap itself, with the addresses it hands out.
  method Execute(heap: Heap, requests: seq<Request>, ghost states: seq<State>)
    requires heap.Valid() && heap.live == map[] && IsRun(states, requests) && states[0].table == heap.GetTable()
    modifies heap`live, heap.entries
    ensures heap.Valid()
    ensures heap.GetTable() == states[|requests|].table
    ensures heap.live == LiveOf(states[|requests|].sizes + states[|requests|].lost)
  {
    if requests == [] {
      assert LiveOf(states[0].sizes + states[0].lost) == map[];
    } else {
      var k := |requests| - 1;
      Execute(heap, requests[..k], states[..k + 1]);
      EveryStateIsSound(states, requests, k);
      assert Step(states[k], requests[k], states[k + 1]);
      Perform(heap, requests[k], states[k], states[k + 1]);
    }
  }

  method Perform(heap: Heap, r: Request, ghost a: State, ghost b: State)
    requires heap.Valid() && heap.GetTable() == a.table && heap.live == LiveOf(a.sizes + a.lost)
    requires Sound(a) && Step(a, r, b)
    modifies heap`live, heap.entries
    ensures heap.Valid()
    ensures heap.GetTable() == b.table && heap.live == LiveOf(b.sizes + b.lost)
  {
    StepKeeps(a, r, b);
    match r
    case Malloc(size) =>
      ghost var n := BlocksOf(size);
      ghost var s := FirstFit(a, size, b);
      var _, found := heap.Malloc(size);
      OneFirstFit(a.table, n, s, found);
      UniqueDecoding(b.table, heap.live, LiveOf(b.sizes + b.lost));
    case Free(block) =>
      assert block in LiveOf(a.sizes + a.lost);
      heap.ValidExtents();
      heap.AddressRoundTrip(block);
      heap.Free(heap.BlockToAddress(block));
      UniqueDecoding(b.table, heap.live, LiveOf(b.sizes + b.lost));
  }

  lemma FirstFit(a: State, size: Word, b: State) returns (s: nat)
    requires Step(a, Malloc(size), b)
    ensures IsFirstFit(a.table, BlocksOf(size), s)
    ensures b == State(Taken(a.table, s, BlocksOf(size)), a.sizes[s := size], a.lost)
  {
    s :| IsFirstFit(a.table, BlocksOf(size), s)
         && b == State(Taken(a.table, s, BlocksOf(size)), a.sizes[s := size], a.lost);
  }

  lemma OneFirstFit(t: Table, n: nat, s: nat, s': nat)
    requires IsFirstFit(t, n, s) && IsFirstFit(t, n, s')
    ensures s == s'
  {
  }

  // A heap of 0x9_0000 blocks: behind an allocation of 0x8_0001 blocks, one of a single block
  // is freed and stays taken.
  lemma FarFreeStaysTaken() returns (states: seq<State>, requests: seq<Request>)
    ensures IsRun(states, requests) && |states| == 4 && |states[0].table| == 0x9_0000
    ensures requests[2] == Free(0x8_0001) && 0x8_0001 !in states[3].sizes
    ensures |states[3].table| == 0x9_0000 && !IsFree(states[3].table[0x8_0001])
    ensures !Represents(states[3].table, LiveOf(states[3].sizes))
  {
    var size: Word := 0x8000_1000;
    var t: Table := seq(0x9_0000, i => FREE);
    var t1 := Taken(t, 0, 0x8_0001);
    var t2 := Taken(t1, 0x8_0001, 1);
    requests := [Malloc(size), Malloc(1), Free(0x8_0001)];
    var s0 := State(t, map[], map[]);
    var s1 := State(t1, map[0 := size], map[]);
    var s2 := State(t2, map[0 := size, 0x8_0001 := 1], map[]);
    var s3 := State(t2, map[0 := size], map[0x8_0001 := 1]);
    states := [s0, s1, s2, s3];
    assert BlocksOf(size) == 0x8_0001 && BlocksOf(1) == 1;
    assert IsFirstFit(t, 0x8_0001, 0);
    assert s0.sizes[0 := size] == s1.sizes;
    FirstFree(t1, 0x8_0001);
    assert s1.sizes[0x8_0001 := 1] == s2.sizes;
    assert s2.sizes - {0x8_0001} == s3.sizes && s2.lost[0x8_0001 := 1] == s3.lost;
    assert Step(s0, requests[0], s1) && Step(s1, requests[1], s2) && Step(s2, requests[2], s3);
    assert IsRun(states, requests);
    assert t2[0x8_0001] == FREE | TAKEN;
    assert requests[..3][2] == Free(0x8_0001);
    TableIsLiveExactlyIfNear(states, requests, 3);
  }

  lemma FirstFree(t: Table, s: nat)
    requires s < |t| && IsFree(t[s]) && forall i :: 0 <= i < s ==> !IsFree(t[i])
    ensures IsFirstFit(t, 1, s)
  {
    forall r: nat | r < s
      ensures !FreeRun(t, r, 1)
    {
      assert !IsFree(t[r]);
    }
  }
}
