// Reading a file from a FAT16 volume: where its bytes lie, the chunk loop over one
// block and the block loop of one read call.
module FatDriver {
  import opened Status
  import opened Words
  import opened Wrappers
  import opened Arithmetic
  import opened Disk
  import opened FatChain

  // ----- Where bytes lie and where they are read -----

  function PosIn(v: Volume, cluster: Option<Cluster>, delta: nat): Option<int> {
    if cluster.None? then None else Some(v.ClusterPos(cluster.value) + delta)
  }

  function ByteAt(v: Volume, pos: Option<int>): Byte {
    if pos.Some? && 0 <= pos.value < |v.disk| then v.disk[pos.value] else 0
  }

  // Byte i of the file: in its cluster on the chain, at its place inside that cluster.
  function FilePos(v: Volume, start: Cluster, i: nat): Option<int> {
    PosIn(v, Walk(v, start, IndexOf(v, i)), i % v.ClusterSize())
  }

  // Byte j of a block that is read at the given offset: the chunk loop takes it from the
  // cluster of its chunk, but counts on from the place of the block's first byte.
  function BlockPos(v: Volume, start: Cluster, offset: nat, j: nat): Option<int> {
    PosIn(v, Walk(v, start, IndexOf(v, offset) + IndexOf(v, j)), offset % v.ClusterSize() + j % v.ClusterSize())
  }

  function FileBytes(v: Volume, start: Cluster, offset: nat, total: nat): (bytes: seq<Byte>)
    ensures |bytes| == total
  {
    seq<Byte>(total, j requires 0 <= j => ByteAt(v, FilePos(v, start, offset + j)))
  }

  function BlockBytes(v: Volume, start: Cluster, offset: nat, total: nat): (bytes: seq<Byte>)
    ensures |bytes| == total
  {
    seq<Byte>(total, j requires 0 <= j => ByteAt(v, BlockPos(v, start, offset, j)))
  }

  // One read call: n blocks of the given size.
  function ReadBytes(v: Volume, start: Cluster, offset: nat, size: nat, n: nat): (bytes: seq<Byte>)
    ensures |bytes| == n * size
  {
    if n == 0 then []
    else
      ReadBytes(v, start, offset, size, n - 1) + BlockBytes(v, start, offset + (n - 1) * size, size)
  }

  // Every chunk of the block finds a usable cluster; otherwise the kernel stops on a
  // failed assertion.
  predicate BlockReachable(v: Volume, start: Cluster, offset: nat, total: nat) {
    total == 0 ||
    (BlockPos(v, start, offset, total - 1).Some? && (IndexOf(v, offset) == 0 ==> start > 0))
  }

  // Whatever the block read touches exists on the device.
  ghost predicate BlockOnDisk(v: Volume, start: Cluster, offset: nat, total: nat) {
    forall j :: 0 <= j < total && BlockPos(v, start, offset, j).Some? ==>
      0 <= BlockPos(v, start, offset, j).value < |v.disk| - 1
  }

  predicate ReadReachable(v: Volume, start: Cluster, offset: nat, size: nat, n: nat) {
    forall i: nat :: i < n ==> BlockReachable(v, start, offset + i * size, size)
  }

  ghost predicate ReadOnDisk(v: Volume, start: Cluster, offset: nat, size: nat, n: nat) {
    forall i: nat :: i < n ==> BlockOnDisk(v, start, offset + i * size, size)
  }

  // The cache and the table reads after n blocks.
  function CacheAfterRead(v: Volume, start: Cluster, c: Cache, offset: nat, size: nat, n: nat): Cache {
    if n == 0 then c
    else CacheAfter(v, start, CacheAfterRead(v, start, c, offset, size, n - 1),
                    IndexOf(v, offset + (n - 1) * size), Chunks(v, size))
  }

  function ReadCost(v: Volume, start: Cluster, c: Cache, offset: nat, size: nat, n: nat): nat {
    if n == 0 then 0
    else ReadCost(v, start, c, offset, size, n - 1)
         + Cost(v, start, CacheAfterRead(v, start, c, offset, size, n - 1),
                IndexOf(v, offset + (n - 1) * size), Chunks(v, size))
  }

  // ----- One pass of the chunk loop -----

  function Min(a: nat, b: nat): nat { if a > b then b else a }

  function Chunks(v: Volume, total: nat): nat {
    (total + v.ClusterSize() - 1) / v.ClusterSize()
  }

  ghost predicate ChunkOnDisk(v: Volume, start: Cluster, offset: nat, m: nat) {
    FilePos(v, start, offset).Some? ==>
      0 <= FilePos(v, start, offset).value && FilePos(v, start, offset).value + m < |v.disk|
  }

  function ChunkBytes(v: Volume, start: Cluster, offset: nat, m: nat): (bytes: seq<Byte>)
    requires FilePos(v, start, offset).Some? && ChunkOnDisk(v, start, offset, m)
    ensures |bytes| == m
  {
    v.disk[FilePos(v, start, offset).value..FilePos(v, start, offset).value + m]
  }

  lemma ReachableIsMonotone(v: Volume, start: Cluster, offset: nat, total: nat, j: nat)
    requires j < total && BlockPos(v, start, offset, total - 1).Some?
    ensures BlockPos(v, start, offset, j).Some?
  {
    DivMonotone(j, total - 1, v.ClusterSize());
    assert IndexOf(v, j) <= IndexOf(v, total - 1);
    hide Walk, Geometry.ClusterSize, IndexOf;
    WalkShorter(v, start, IndexOf(v, offset) + IndexOf(v, j), IndexOf(v, offset) + IndexOf(v, total - 1));
  }

  lemma BlockStart(v: Volume, start: Cluster, offset: nat, total: nat, original: seq<Byte>, at: nat)
    requires at + total <= |original|
    ensures BlockReachable(v, start, offset, 0)
    ensures original == Overwrite(original, at, BlockBytes(v, start, offset, 0))
    ensures total == 0 ==> Chunks(v, total) == 0
  {
    DivModUnique(v.ClusterSize() - 1, v.ClusterSize(), 0, v.ClusterSize() - 1);
  }

  // The bytes of chunk k lie behind one another on the device.
  lemma ChunkIsOneRun(v: Volume, start: Cluster, offset: nat, total: nat, k: nat, done: nat, m: nat)
    requires done == k * v.ClusterSize() && 0 < m <= v.ClusterSize() && done + m <= total
    requires BlockOnDisk(v, start, offset, total)
    requires FilePos(v, start, offset + done).Some?
    ensures ChunkOnDisk(v, start, offset + done, m)
    ensures forall j :: done <= j < done + m ==>
      BlockPos(v, start, offset, j) == Some(FilePos(v, start, offset + done).value + (j - done))
  {
    var cs := v.ClusterSize();
    DivAddMultiple(offset, k, cs);
    forall j | done <= j < done + m
      ensures j / cs == k && j % cs == j - done
    {
      DivModUnique(j, cs, k, j - done);
    }
    var first, last := done, done + m - 1;
    assert BlockPos(v, start, offset, first).Some? && BlockPos(v, start, offset, last).Some?;
  }

  // What pass k of the chunk loop over a block at offset reads, and what it reaches.
  lemma NextChunk(v: Volume, start: Cluster, offset: nat, total: nat, k: nat, done: nat)
    requires done == k * v.ClusterSize() && done < total
    requires BlockOnDisk(v, start, offset, total)
    ensures IndexOf(v, offset + done) == IndexOf(v, offset) + k
    ensures ChunkOnDisk(v, start, offset + done, Min(total - done, v.ClusterSize()))
    ensures var cluster := Walk(v, start, IndexOf(v, offset) + k);
            var m := Min(total - done, v.ClusterSize());
            if cluster.None? || cluster.value == 0
            then !BlockReachable(v, start, offset, total)
            else BlockReachable(v, start, offset, done) ==> BlockReachable(v, start, offset, done + m)
    ensures total - done <= v.ClusterSize() ==> k + 1 == Chunks(v, total)
    ensures done + v.ClusterSize() == (k + 1) * v.ClusterSize()
  {
    var cs := v.ClusterSize();
    var m := Min(total - done, cs);
    DivAddMultiple(offset, k, cs);
    DivOfMultiple(k, cs);
    DivModUnique(done + m - 1, cs, k, m - 1);
    Distribute(k, 1, cs);
    if m == total - done {
      PiecesOf(total, cs, k, m);
    }
    if Walk(v, start, IndexOf(v, offset) + k).Some? {
      ChunkIsOneRun(v, start, offset, total, k, done, m);
    }
    if BlockPos(v, start, offset, total - 1).Some? {
      ReachableIsMonotone(v, start, offset, total, done);
    }
  }

  lemma CopyChunk(v: Volume, start: Cluster, offset: nat, total: nat, k: nat, done: nat, m: nat,
                  original: seq<Byte>, at: nat)
    requires done == k * v.ClusterSize()
    requires 0 < m <= v.ClusterSize() && done + m <= total && at + total <= |original|
    requires BlockOnDisk(v, start, offset, total)
    requires FilePos(v, start, offset + done).Some? && ChunkOnDisk(v, start, offset + done, m)
    ensures Overwrite(Overwrite(original, at, BlockBytes(v, start, offset, done)), at + done,
                      ChunkBytes(v, start, offset + done, m))
            == Overwrite(original, at, BlockBytes(v, start, offset, done + m))
  {
    ChunkIsOneRun(v, start, offset, total, k, done, m);
    var a, b, c := BlockBytes(v, start, offset, done), ChunkBytes(v, start, offset + done, m),
                   BlockBytes(v, start, offset, done + m);
    forall j | 0 <= j < done + m
      ensures c[j] == (a + b)[j]
    {
    }
    assert c == a + b;
    OverwriteTwice(original, at, a, b);
  }

  // ----- The driver -----

  class FileDescriptor {
    const startingCluster: Cluster
    var pos: int
    var cachedCluster: Cluster
    var cachedOffsetBytes: nat

    constructor (startingCluster: Cluster)
      ensures this.startingCluster == startingCluster && pos == 0 && GetCache() == EMPTY
    {
      this.startingCluster := startingCluster;
      pos := 0;
      cachedCluster := 0;
      cachedOffsetBytes := 0;
    }

    function GetCache(): Cache
      reads this
    {
      Cache(cachedCluster, cachedOffsetBytes)
    }

    // The cache is empty or names a cluster of this file together with its position.
    ghost predicate Valid(v: Volume)
      reads this
    {
      CacheOk(v, startingCluster, GetCache())
    }
  }

  class FileSystem {
    const volume: Volume
    const clusterReadStream: DiskStream
    const fatReadStream: DiskStream
    // How many table entries have been read.
    ghost var lookups: nat

    ghost predicate Valid() {
      && clusterReadStream != fatReadStream
      && clusterReadStream.disk == volume.disk && fatReadStream.disk == volume.disk
    }

    constructor (volume: Volume)
      ensures Valid() && this.volume == volume && lookups == 0
      ensures fresh(clusterReadStream) && fresh(fatReadStream)
    {
      this.volume := volume;
      clusterReadStream := new DiskStream(volume.disk);
      fatReadStream := new DiskStream(volume.disk);
      lookups := 0;
    }

    method GetNextFatEntry(cluster: Cluster) returns (res: int)
      requires Valid()
      modifies fatReadStream, this`lookups
      ensures res == Entry(volume, cluster)
      ensures lookups == old(lookups) + 1
    {
      lookups := lookups + 1;
      var fatTablePosition := volume.SectorToAbsolute(volume.reservedSectors);
      res := fatReadStream.Seek(fatTablePosition + cluster * FAT_ENTRY_SIZE);
      if res < 0 { return; }
      var result := new Byte[FAT_ENTRY_SIZE];
      res := fatReadStream.Read(result, 0, FAT_ENTRY_SIZE);
      if res < 0 { return; }
      assert result[..][0] == volume.disk[volume.EntryPos(cluster)];
      assert result[..][1] == volume.disk[volume.EntryPos(cluster) + 1];
      res := (result[0] as int) + 0x100 * (result[1] as int);
    }

    // The cluster that holds byte offset of the file, or -EIO. A null descriptor
    // means the walk is not cached.
    method GetNthClusterFromFat(desc: FileDescriptor?, start: Cluster, offset: nat) returns (result: int)
      requires Valid()
      requires desc != null ==> desc.Valid(volume) && desc.startingCluster == start
      modifies fatReadStream, this`lookups, if desc == null then {} else {desc}
      ensures var n := IndexOf(volume, offset);
              result == (if Walk(volume, start, n).Some? then Walk(volume, start, n).value else -EIO)
      ensures desc != null ==>
        && desc.Valid(volume) && desc.pos == old(desc.pos)
        && desc.GetCache() == NextCache(volume, start, old(desc.GetCache()), IndexOf(volume, offset))
      ensures old(lookups) <= lookups <= old(lookups) + IndexOf(volume, offset)
      ensures desc != null && result != -EIO ==>
        lookups == old(lookups) + LookupCost(volume, start, old(desc.GetCache()), IndexOf(volume, offset))
    {
      var sizeOfClusterBytes := volume.ClusterSize();
      var targetCluster := offset / sizeOfClusterBytes;
      ghost var c := if desc == null then EMPTY else desc.GetCache();
      LookupCases(volume, start, c, targetCluster);
      assert targetCluster == IndexOf(volume, offset);
      hide Geometry.ClusterSize, IndexOf, Walk, From, NextCache, LookupCost, CacheOk;
      if targetCluster == 0 {
        return start;
      }
      var clusterToUse: Cluster, currentPos: nat := start, 0;
      if desc != null && desc.cachedCluster != 0 {
        var cachedCluster := desc.cachedOffsetBytes / sizeOfClusterBytes;
        if cachedCluster < targetCluster {
          clusterToUse, currentPos := desc.cachedCluster, cachedCluster;
        } else if cachedCluster == targetCluster {
          return desc.cachedCluster;
        }
      }
      var found := FollowChain(clusterToUse, currentPos, targetCluster);
      if found == -EIO {
        return -EIO;
      }
      result := found;
      if desc != null {
        desc.cachedCluster := found;
        desc.cachedOffsetBytes := targetCluster * sizeOfClusterBytes;
      }
    }

    // The links from one cluster of a chain to a later one.
    method FollowChain(from: Cluster, position: nat, targetCluster: nat) returns (result: int)
      requires Valid() && position < targetCluster
      modifies fatReadStream, this`lookups
      ensures var w := Walk(volume, from, targetCluster - position);
              && result == (if w.Some? then w.value else -EIO)
              && (w.Some? ==> w.value > 0 && lookups == old(lookups) + (targetCluster - position))
      ensures old(lookups) <= lookups <= old(lookups) + (targetCluster - position)
    {
      hide Geometry.ClusterPos, Geometry.EntryPos;
      var clusterToUse: Cluster, currentPos: nat := from, position;
      while currentPos < targetCluster
        modifies fatReadStream, this`lookups
        invariant position <= currentPos <= targetCluster
        invariant currentPos > position ==> clusterToUse > 0
        invariant Walk(volume, clusterToUse, targetCluster - currentPos) == Walk(volume, from, targetCluster - position)
        invariant lookups == old(lookups) + (currentPos - position)
      {
        var entry := GetNextFatEntry(clusterToUse);
        if entry == 0xFFF8 || entry == 0xFFFF {
          return -EIO;
        }
        if entry == 0xFF7 {
          return -EIO;
        }
        if entry == 0xFF0 || entry == 0xFF6 {
          return -EIO;
        }
        if entry == 0x00 {
          return -EIO;
        }
        clusterToUse := entry;
        currentPos := currentPos + 1;
      }
      result := clusterToUse;
    }

    // One pass of the chunk loop: as much as one cluster holds, read from the cluster of
    // the current offset and onwards. Returns 0 when there is no cluster to read from, on
    // which the kernel panics.
    method ReadChunk(stream: DiskStream, desc: FileDescriptor?, start: Cluster, offset: nat, total: nat,
                     out: array<Byte>, at: nat)
      returns (read: nat)
      requires Valid() && stream == clusterReadStream
      requires desc != null ==> desc.Valid(volume) && desc.startingCluster == start
      requires 0 < total && at + total <= out.Length
      requires ChunkOnDisk(volume, start, offset, Min(total, volume.ClusterSize()))
      modifies stream, fatReadStream, this`lookups, if desc == null then {} else {desc}, out
      ensures var cluster := Walk(volume, start, IndexOf(volume, offset));
              if cluster.None? || cluster.value == 0
              then read == 0 && out[..] == old(out[..])
              else
                && read == Min(total, volume.ClusterSize())
                && out[..] == Overwrite(old(out[..]), at, ChunkBytes(volume, start, offset, read))
      ensures desc != null ==> desc.Valid(volume) && desc.pos == old(desc.pos)
      ensures desc != null && read > 0 ==>
        && desc.GetCache() == NextCache(volume, start, old(desc.GetCache()), IndexOf(volume, offset))
        && lookups == old(lookups) + LookupCost(volume, start, old(desc.GetCache()), IndexOf(volume, offset))
    {
      var cs := volume.ClusterSize();
      hide Walk, IndexOf, Geometry.ClusterSize, NextCache, LookupCost, CacheOk, Overwrite;
      var clusterToUse := GetNthClusterFromFat(desc, start, offset);
      if clusterToUse <= 0 {
        return 0;
      }
      var offsetFromCluster := offset % cs;
      var startingSector := volume.ClusterToSector(clusterToUse);
      var startingPos := volume.SectorToAbsolute(startingSector) + offsetFromCluster;
      read := if total > cs then cs else total;
      var _ := stream.Seek(startingPos);
      var _ := stream.Read(out, at, read);
    }

    // Reads one block, chunk by chunk. The result is false when the kernel panics.
    method ReadCluster(stream: DiskStream, desc: FileDescriptor?, start: Cluster, offset: nat, total: nat,
                       out: array<Byte>, at: nat)
      returns (ok: bool)
      requires Valid() && stream == clusterReadStream
      requires desc != null ==> desc.Valid(volume) && desc.startingCluster == start
      requires at + total <= out.Length
      requires BlockOnDisk(volume, start, offset, total)
      modifies stream, fatReadStream, this`lookups, if desc == null then {} else {desc}, out
      ensures ok == BlockReachable(volume, start, offset, total)
      ensures ok ==> out[..] == Overwrite(old(out[..]), at, BlockBytes(volume, start, offset, total))
      ensures desc != null ==> desc.Valid(volume) && desc.pos == old(desc.pos)
      ensures ok && desc != null ==>
        && desc.GetCache() == CacheAfter(volume, start, old(desc.GetCache()), IndexOf(volume, offset), Chunks(volume, total))
        && lookups == old(lookups) + Cost(volume, start, old(desc.GetCache()), IndexOf(volume, offset), Chunks(volume, total))
    {
      hide IndexOf, Geometry.ClusterSize, Chunks, Overwrite, ChunkBytes, NextCache, LookupCost, Walk, BlockReachable, BlockBytes;
      var left: nat, off: nat, to: nat := total, offset, at;
      ghost var n: nat, k: nat := IndexOf(volume, offset), 0;
      ghost var c := if desc == null then EMPTY else desc.GetCache();
      ghost var original := out[..];
      BlockStart(volume, start, offset, total, original, at);
      while left > 0
        invariant left <= total && off == offset + (total - left) && to == at + (total - left)
        invariant left > 0 ==> total - left == k * volume.ClusterSize()
        invariant left == 0 ==> k == Chunks(volume, total)
        invariant BlockReachable(volume, start, offset, total - left)
        invariant out[..] == Overwrite(original, at, BlockBytes(volume, start, offset, total - left))
        invariant desc != null ==>
          && desc.Valid(volume) && desc.pos == old(desc.pos)
          && desc.GetCache() == CacheAfter(volume, start, c, n, k)
          && lookups == old(lookups) + Cost(volume, start, c, n, k)
      {
        ghost var done := total - left;
        NextChunk(volume, start, offset, total, k, done);
        OneMoreLookup(volume, start, c, n, k);
        var read := ReadChunk(stream, desc, start, off, left, out, to);
        if read == 0 {
          return false;
        }
        CopyChunk(volume, start, offset, total, k, done, read, original, at);
        left := left - read;
        off := off + read;
        to := to + read;
        k := k + 1;
      }
      ok := true;
    }

    // Reads nmemb blocks of the given size from the descriptor's position and moves the
    // position behind them. The result is None when the kernel panics.
    method Read(desc: FileDescriptor, size: nat, nmemb: nat, out: array<Byte>, at: nat) returns (res: Option<nat>)
      requires Valid() && desc.Valid(volume) && desc.pos >= 0
      requires desc.pos + nmemb * size < 0x8000_0000
      requires at + nmemb * size <= out.Length
      requires ReadOnDisk(volume, desc.startingCluster, desc.pos, size, nmemb)
      modifies clusterReadStream, fatReadStream, this`lookups, desc, out
      ensures res == if ReadReachable(volume, desc.startingCluster, old(desc.pos), size, nmemb) then Some(nmemb) else None
      ensures desc.Valid(volume)
      ensures res.Some? ==>
        && out[..] == Overwrite(old(out[..]), at,
                                ReadBytes(volume, desc.startingCluster, old(desc.pos), size, nmemb))
        && desc.pos == old(desc.pos) + nmemb * size
        && desc.GetCache() == CacheAfterRead(volume, desc.startingCluster, old(desc.GetCache()), old(desc.pos), size, nmemb)
        && lookups == old(lookups) + ReadCost(volume, desc.startingCluster, old(desc.GetCache()), old(desc.pos), size, nmemb)
    {
      hide IndexOf, Geometry.ClusterSize, BlockBytes, BlockReachable, BlockOnDisk, Overwrite, CacheAfter, Cost, Chunks;
      var start := desc.startingCluster;
      ghost var original, c, first: nat := out[..], desc.GetCache(), desc.pos;
      var offset: nat, to: nat := desc.pos, at;
      OverwriteNothing(original, at);
      for i := 0 to nmemb
        invariant offset == first + i * size && to == at + i * size && desc.pos == first
        invariant ReadReachable(volume, start, first, size, i)
        invariant at + i * size <= |original|
        invariant out[..] == Overwrite(original, at, ReadBytes(volume, start, first, size, i))
        invariant desc.Valid(volume)
        invariant desc.GetCache() == CacheAfterRead(volume, start, c, first, size, i)
        invariant lookups == old(lookups) + ReadCost(volume, start, c, first, size, i)
      {
        OneMoreBlock(i, nmemb, size);
        var ok := ReadCluster(clusterReadStream, desc, start, offset, size, out, to);
        if !ok {
          return None;
        }
        OverwriteTwice(original, at, ReadBytes(volume, start, first, size, i), BlockBytes(volume, start, offset, size));
        offset := offset + size;
        to := to + size;
      }
      desc.pos := offset;
      res := Some(nmemb);
    }
  }

  lemma OneMoreBlock(i: nat, n: nat, size: nat)
    requires i < n
    ensures (i + 1) * size == i * size + size <= n * size
  {
    Distribute(i, 1, size);
    Distribute(n - i - 1, i + 1, size);
  }
}
