// The block table of the heap: one byte a block, and what the bytes mean.
module HeapTable {
  const FREE: bv8 := 0x00
  const TAKEN: bv8 := 0x01
  const HAS_NEXT: bv8 := 0x80

  type Table = seq<bv8>

  // The live allocations: first block and number of blocks of each.
  type Live = map<nat, nat>

  predicate IsFree(entry: bv8) { entry & 0x0f == FREE }

  predicate FreeRun(t: Table, s: nat, n: nat) {
    s + n <= |t| && forall i :: s <= i < s + n ==> IsFree(t[i])
  }

  ghost predicate Fits(t: Table, n: nat) {
    exists s: nat :: FreeRun(t, s, n)
  }

  ghost predicate IsFirstFit(t: Table, n: nat, s: nat) {
    FreeRun(t, s, n) && forall s': nat :: s' < s ==> !FreeRun(t, s', n)
  }

  // The table after n blocks from s on are marked as one allocation.
  function Taken(t: Table, s: nat, n: nat): (t': Table)
    ensures |t'| == |t|
  {
    seq(|t|, i requires 0 <= i < |t| =>
      if s <= i < s + n then (if i + 1 < s + n then t[i] | TAKEN | HAS_NEXT else t[i] | TAKEN) else t[i])
  }

  // The table after the chain of blocks that starts at s is marked free.
  function Freed(t: Table, s: nat): (t': Table)
    ensures |t'| == |t|
    decreases |t| - s
  {
    if s >= |t| then t
    else if t[s] & HAS_NEXT == 0 then t[s := FREE]
    else Freed(t[s := FREE], s + 1)
  }

  // ----- The extents a table encodes -----

  ghost predicate Extents(live: Live, total: nat) {
    && (forall s :: s in live ==> live[s] >= 1 && s + live[s] <= total)
    && (forall s, s' :: s in live && s' in live && s < s' ==> s + live[s] <= s')
  }

  ghost predicate Covered(live: Live, i: nat) {
    exists s :: s in live && s <= i < s + live[s]
  }

  function Cell(i: nat, s: nat, n: nat): bv8 {
    if i + 1 < s + n then TAKEN | HAS_NEXT else TAKEN
  }

  // Every allocation is 0x81 ... 0x81 0x01, everything else is 0.
  ghost predicate Represents(t: Table, live: Live) {
    && Extents(live, |t|)
    && (forall s, i :: s in live && s <= i < s + live[s] ==> t[i] == Cell(i, s, live[s]))
    && (forall i :: 0 <= i < |t| && !Covered(live, i) ==> t[i] == FREE)
  }

  // In numbers.
  lemma TableBytes(t: Table, live: Live, i: nat)
    requires Represents(t, live) && i < |t|
    ensures !Covered(live, i) ==> t[i] == 0x00
    ensures forall s :: s in live && s <= i < s + live[s] ==> t[i] == if i + 1 == s + live[s] then 0x01 else 0x81
  {
    assert TAKEN | HAS_NEXT == 0x81;
  }

  // Only the lower four bits say whether a block is free.
  lemma FreeEntry(entry: bv8)
    ensures IsFree(entry) <==> entry % 16 == 0
  {
  }

  lemma CellBits(i: nat, s: nat, n: nat)
    ensures !IsFree(Cell(i, s, n)) && IsFree(FREE)
    ensures (Cell(i, s, n) & HAS_NEXT != 0) == (i + 1 < s + n)
    ensures FREE & HAS_NEXT == 0
  {
  }

  lemma CoveredIsTaken(t: Table, live: Live, i: nat)
    requires Represents(t, live) && i < |t|
    ensures Covered(live, i) <==> !IsFree(t[i])
    ensures IsFree(t[i]) ==> t[i] == FREE
  {
    if Covered(live, i) {
      var s :| s in live && s <= i < s + live[s];
      CellBits(i, s, live[s]);
    }
  }

  // The bytes alone say where every allocation starts and ends, although no byte marks a
  // first block.
  lemma UniqueDecoding(t: Table, live: Live, live': Live)
    requires Represents(t, live) && Represents(t, live')
    ensures live == live'
  {
    forall s | s in live || s in live'
      ensures s in live && s in live' && live[s] == live'[s]
    {
      if s in live {
        SameExtent(t, live, live', s);
      } else {
        SameExtent(t, live', live, s);
      }
    }
  }

  lemma GoesOn(t: Table, live: Live, s: nat, i: nat)
    requires Represents(t, live) && s in live && s <= i < s + live[s]
    ensures (t[i] & HAS_NEXT != 0) == (i + 1 < s + live[s])
  {
    CellBits(i, s, live[s]);
  }

  // The block in front of an allocation does not go on.
  lemma StartsAnew(t: Table, live: Live, s: nat)
    requires Represents(t, live) && s in live && s > 0
    ensures t[s - 1] & HAS_NEXT == 0
  {
    if Covered(live, s - 1) {
      var r :| r in live && r <= s - 1 < r + live[r];
      GoesOn(t, live, r, s - 1);
    }
  }

  lemma NotLonger(t: Table, live: Live, live': Live, s: nat)
    requires Represents(t, live) && Represents(t, live') && s in live && s in live'
    ensures live[s] <= live'[s]
  {
    var end := s + live'[s] - 1;
    GoesOn(t, live', s, end);
    if live[s] > live'[s] {
      GoesOn(t, live, s, end);
    }
  }

  lemma SameExtent(t: Table, live: Live, live': Live, s: nat)
    requires Represents(t, live) && Represents(t, live') && s in live
    ensures s in live' && live'[s] == live[s]
  {
    CellBits(s, s, live[s]);
    CoveredIsTaken(t, live', s);
    if s > 0 {
      StartsAnew(t, live, s);
    }
    var s' :| s' in live' && s' <= s < s' + live'[s'];
    if s' < s {
      GoesOn(t, live', s', s - 1);
    } else {
      NotLonger(t, live, live', s);
      NotLonger(t, live', live, s);
    }
  }

  // The extents determine the table.
  lemma UniqueEncoding(t: Table, t': Table, live: Live)
    requires Represents(t, live) && Represents(t', live) && |t| == |t'|
    ensures t == t'
  {
    forall i | 0 <= i < |t|
      ensures t[i] == t'[i]
    {
      if Covered(live, i) {
        var s :| s in live && s <= i < s + live[s];
        assert t[i] == Cell(i, s, live[s]) == t'[i];
      }
    }
  }

  // ----- Taking and freeing -----

  lemma LiveCell(t: Table, live: Live, r: nat, i: nat)
    requires Represents(t, live) && r in live && r <= i < r + live[r]
    ensures !IsFree(t[i])
  {
    CellBits(i, r, live[r]);
  }

  // A free run does not meet any allocation.
  lemma RunIsApart(t: Table, live: Live, s: nat, n: nat, r: nat)
    requires Represents(t, live) && n >= 1 && FreeRun(t, s, n) && r in live
    ensures r + live[r] <= s || s + n <= r
  {
    LiveCell(t, live, r, r);
    if r < s < r + live[r] {
      LiveCell(t, live, r, s);
    }
  }

  lemma TakeKeeps(t: Table, live: Live, s: nat, n: nat)
    requires Represents(t, live) && n >= 1 && FreeRun(t, s, n)
    ensures s !in live
    ensures Represents(Taken(t, s, n), live[s := n])
  {
    var t', live' := Taken(t, s, n), live[s := n];
    forall r | r in live
      ensures r + live[r] <= s || s + n <= r
    {
      RunIsApart(t, live, s, n, r);
    }
    forall i | s <= i < s + n
      ensures t'[i] == Cell(i, s, n)
    {
      CoveredIsTaken(t, live, i);
      assert FREE | TAKEN | HAS_NEXT == TAKEN | HAS_NEXT && FREE | TAKEN == TAKEN;
    }
    forall i | 0 <= i < |t'|
      ensures Covered(live', i) || t'[i] == FREE
    {
      if s <= i < s + n {
        assert s in live';
      } else if Covered(live, i) {
        var r :| r in live && r <= i < r + live[r];
        assert r in live';
      }
    }
  }

  // Freeing walks to the end of the allocation and clears exactly its blocks.
  lemma {:induction false} FreedExtent(t: Table, s: nat, a: nat, n: nat)
    requires s <= a < s + n <= |t|
    requires forall i :: a <= i < s + n ==> t[i] == Cell(i, s, n)
    ensures forall i :: 0 <= i < |t| ==> Freed(t, a)[i] == if a <= i < s + n then FREE else t[i]
    decreases s + n - a
  {
    CellBits(a, s, n);
    if a + 1 < s + n {
      FreedExtent(t[a := FREE], s, a + 1, n);
    }
  }

  lemma CoveredWithout(live: Live, s: nat, i: nat)
    requires s in live && Covered(live, i) && !(s <= i < s + live[s])
    ensures Covered(live - {s}, i)
  {
    var r :| r in live && r <= i < r + live[r];
    assert r in live - {s};
  }

  lemma FreeKeeps(t: Table, live: Live, s: nat)
    requires Represents(t, live) && s in live
    ensures Represents(Freed(t, s), live - {s})
  {
    var n, t', live' := live[s], Freed(t, s), live - {s};
    FreedExtent(t, s, s, n);
    forall i | 0 <= i < |t'|
      ensures Covered(live', i) || t'[i] == FREE
    {
      if !(s <= i < s + n) && Covered(live, i) {
        CoveredWithout(live, s, i);
      }
    }
  }

  // Freeing what was just taken restores every byte of the table.
  lemma FreeUndoesTake(t: Table, live: Live, s: nat, n: nat)
    requires Represents(t, live) && n >= 1 && FreeRun(t, s, n)
    ensures Freed(Taken(t, s, n), s) == t
  {
    TakeKeeps(t, live, s, n);
    FreeKeeps(Taken(t, s, n), live[s := n], s);
    assert live[s := n] - {s} == live;
    UniqueEncoding(Freed(Taken(t, s, n), s), t, live);
  }

  // Freeing a block that no allocation covers, or one past the table, changes nothing.
  lemma FreeOfFree(t: Table, live: Live, s: nat)
    requires Represents(t, live) && !Covered(live, s)
    ensures Freed(t, s) == t
  {
    if s < |t| {
      assert t[s] == FREE;
      CellBits(s, s, 1);
      assert t[s := FREE] == t;
    }
  }

  // ----- Counting -----

  function CountTaken(t: Table): (n: nat)
    ensures n <= |t|
  {
    if t == [] then 0 else CountTaken(t[..|t| - 1]) + (if IsFree(t[|t| - 1]) then 0 else 1)
  }

  ghost function SumOf(live: Live): nat {
    if live == map[] then 0
    else
      var s :| s in live;
      live[s] + SumOf(live - {s})
  }

  lemma {:induction false} SumWithout(live: Live, s: nat)
    requires s in live
    ensures SumOf(live) == live[s] + SumOf(live - {s})
    decreases |live|
  {
    var r :| r in live && SumOf(live) == live[r] + SumOf(live - {r});
    if r != s {
      SumWithout(live - {r}, s);
      SumWithout(live - {s}, r);
      assert live - {r} - {s} == live - {s} - {r};
    }
  }

  lemma {:induction false} CountChanges(t: Table, t': Table, a: nat, n: nat)
    requires |t| == |t'| && a + n <= |t|
    requires forall i :: 0 <= i < |t| && !(a <= i < a + n) ==> IsFree(t[i]) == IsFree(t'[i])
    requires forall i :: a <= i < a + n ==> IsFree(t[i]) && !IsFree(t'[i])
    ensures CountTaken(t') == CountTaken(t) + n
    decreases |t|
  {
    if |t| > 0 {
      var k := |t| - 1;
      if a + n <= k {
        CountChanges(t[..k], t'[..k], a, n);
      } else if n > 0 {
        CountChanges(t[..k], t'[..k], a, n - 1);
      } else {
        CountChanges(t[..k], t'[..k], 0, 0);
      }
    }
  }

  lemma {:induction false} CountNone(t: Table)
    requires forall i :: 0 <= i < |t| ==> t[i] == FREE
    ensures CountTaken(t) == 0
  {
    if t != [] {
      CountNone(t[..|t| - 1]);
    }
  }

  // The number of taken blocks is the sum of the sizes of the live allocations.
  lemma {:induction false} Conservation(t: Table, live: Live)
    requires Represents(t, live)
    ensures CountTaken(t) == SumOf(live)
    decreases |live|
  {
    if live == map[] {
      forall i | 0 <= i < |t|
        ensures t[i] == FREE
      {
        assert !Covered(live, i);
      }
      CountNone(t);
    } else {
      var s :| s in live;
      FreeKeeps(t, live, s);
      FreedExtent(t, s, s, live[s]);
      forall i | s <= i < s + live[s]
        ensures !IsFree(t[i]) && IsFree(FREE)
      {
        CellBits(i, s, live[s]);
      }
      CountChanges(Freed(t, s), t, s, live[s]);
      SumWithout(live, s);
      Conservation(Freed(t, s), live - {s});
    }
  }

  // A table that is not full has room for one block.
  lemma RoomForOne(t: Table)
    requires CountTaken(t) < |t|
    ensures Fits(t, 1)
  {
    if forall i :: 0 <= i < |t| ==> !IsFree(t[i]) {
      CountAll(t);
    }
    var i :| 0 <= i < |t| && IsFree(t[i]);
    assert FreeRun(t, i, 1);
  }

  lemma {:induction false} CountAll(t: Table)
    requires forall i :: 0 <= i < |t| ==> !IsFree(t[i])
    ensures CountTaken(t) == |t|
  {
    if t != [] {
      CountAll(t[..|t| - 1]);
    }
  }
}
