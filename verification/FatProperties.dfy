// What a FAT16 read delivers: the slice of the logical file, exactly when its blocks do
// not run over a cluster boundary into a cluster that is not the next one on the device;
// and how many table entries a sequential read costs.
module FatProperties {
  import opened Words
  import opened Wrappers
  import opened Arithmetic
  import opened FatChain
  import opened FatDriver

  // ----- The logical file -----

  function ClusterBytes(v: Volume, cluster: Cluster): seq<Byte> {
    seq<Byte>(v.ClusterSize(), i requires 0 <= i => ByteAt(v, Some(v.ClusterPos(cluster) + i)))
  }

  // The chain has at least k clusters from the given one on.
  predicate HasClusters(v: Volume, cluster: Cluster, k: nat)
    decreases k
  {
    k <= 1 || (!IsStop(Entry(v, cluster)) && HasClusters(v, Entry(v, cluster), k - 1))
  }

  // The first k clusters of the file that starts at the given cluster, one behind the other.
  function File(v: Volume, cluster: Cluster, k: nat): seq<Byte>
    requires HasClusters(v, cluster, k)
    decreases k
  {
    if k == 0 then []
    else ClusterBytes(v, cluster) + (if k == 1 then [] else File(v, Entry(v, cluster), k - 1))
  }

  lemma {:induction false} FileLength(v: Volume, cluster: Cluster, k: nat)
    requires HasClusters(v, cluster, k)
    ensures |File(v, cluster, k)| == k * v.ClusterSize()
    decreases k
  {
    hide Geometry.ClusterSize, Geometry.ClusterPos, Geometry.EntryPos, Entry, ByteAt, ClusterBytes;
    ClusterLength(v, cluster);
    if k > 0 {
      Distribute(k - 1, 1, v.ClusterSize());
    }
    if k > 1 {
      FileLength(v, Entry(v, cluster), k - 1);
    }
  }

  lemma ClusterLength(v: Volume, cluster: Cluster)
    ensures |ClusterBytes(v, cluster)| == v.ClusterSize()
  {
  }

  // The bytes of the first cluster.
  lemma FirstByteAt(v: Volume, cluster: Cluster, i: nat)
    requires i < v.ClusterSize()
    ensures FilePos(v, cluster, i).Some?
    ensures ClusterBytes(v, cluster)[i] == ByteAt(v, FilePos(v, cluster, i))
  {
    hide Geometry.ClusterPos, Geometry.EntryPos;
    DivModUnique(i, v.ClusterSize(), 0, i);
  }

  lemma {:induction false} FileByteAt(v: Volume, cluster: Cluster, k: nat, i: nat)
    requires HasClusters(v, cluster, k)
    ensures |File(v, cluster, k)| == k * v.ClusterSize()
    ensures i < k * v.ClusterSize() ==>
      FilePos(v, cluster, i).Some? && File(v, cluster, k)[i] == ByteAt(v, FilePos(v, cluster, i))
    decreases k
  {
    hide Geometry.ClusterSize, Geometry.ClusterPos, Geometry.EntryPos, Entry, FilePos, ByteAt, ClusterBytes;
    var cs := v.ClusterSize();
    FileLength(v, cluster, k);
    ClusterLength(v, cluster);
    if k > 0 {
      Distribute(k - 1, 1, cs);
      if i < cs {
        FirstByteAt(v, cluster, i);
      } else if k > 1 {
        FileByteAt(v, Entry(v, cluster), k - 1, i - cs);
        NextClusterPos(v, cluster, i);
      }
    }
  }

  // Behind its first cluster a file goes on as the file of the next cluster.
  lemma NextClusterPos(v: Volume, cluster: Cluster, i: nat)
    requires i >= v.ClusterSize() && !IsStop(Entry(v, cluster))
    ensures FilePos(v, cluster, i) == FilePos(v, Entry(v, cluster), i - v.ClusterSize())
  {
    DivAddMultiple(i - v.ClusterSize(), 1, v.ClusterSize());
  }

  // The bytes that positions on the chain name are the slice of the concatenated clusters.
  lemma FileBytesAreSlice(v: Volume, start: Cluster, k: nat, offset: nat, total: nat)
    requires HasClusters(v, start, k) && offset + total <= k * v.ClusterSize()
    ensures |File(v, start, k)| == k * v.ClusterSize()
    ensures FileBytes(v, start, offset, total) == File(v, start, k)[offset..offset + total]
  {
    FileByteAt(v, start, k, 0);
    forall j | 0 <= j < total
      ensures FileBytes(v, start, offset, total)[j] == File(v, start, k)[offset..offset + total][j]
    {
      FileByteAt(v, start, k, offset + j);
    }
  }

  // ----- Where a volume lies on its device -----

  // The first data cluster has number 2 and lies behind the root directory; the others follow
  // it, one cluster's size behind the other. The table starts behind the reserved sectors.
  lemma Layout(v: Volume, cluster: Cluster)
    ensures v.ClusterPos(2) == v.partitionOffset + v.endingSectorPos * v.bytesPerSector
    ensures v.ClusterPos(cluster) == v.ClusterPos(2) + (cluster - 2) * (v.sectorsPerCluster * v.bytesPerSector)
    ensures v.EntryPos(cluster) == v.partitionOffset + v.reservedSectors * v.bytesPerSector + 2 * cluster
  {
    ClusterPosStep(v, 2, cluster);
  }

  // The same volume, k bytes further on.
  ghost predicate Relocated(v: Volume, v': Volume, k: nat) {
    && v' == v.(disk := v'.disk, partitionOffset := v.partitionOffset + k)
    && k <= |v'.disk| && v'.disk[k..] == v.disk
  }

  // Its table is the same, and its clusters lie as much further on.
  lemma RelocatedEntry(v: Volume, v': Volume, k: nat, cluster: Cluster)
    requires Relocated(v, v', k)
    ensures Entry(v', cluster) == Entry(v, cluster)
    ensures v'.ClusterPos(cluster) == v.ClusterPos(cluster) + k
  {
    var p := v.EntryPos(cluster);
    EntryInside(v, cluster);
    assert v'.EntryPos(cluster) == p + k;
    assert v'.disk[k..][p] == v.disk[p] && v'.disk[k..][p + 1] == v.disk[p + 1];
  }

  lemma EntryInside(v: Volume, cluster: Cluster)
    ensures v.EntryPos(cluster) + 1 < |v.disk|
  {
  }

  lemma {:induction false} RelocatedWalk(v: Volume, v': Volume, k: nat, cluster: Cluster, n: nat)
    requires Relocated(v, v', k)
    ensures Walk(v', cluster, n) == Walk(v, cluster, n)
    decreases n
  {
    hide Geometry.ClusterPos, Geometry.EntryPos, Entry, Relocated;
    RelocatedEntry(v, v', k, cluster);
    if n > 0 && !IsStop(Entry(v, cluster)) {
      RelocatedWalk(v, v', k, Entry(v, cluster), n - 1);
    }
  }

  function Further(pos: Option<int>, k: nat): Option<int> { if pos.Some? then Some(pos.value + k) else None }

  lemma RelocatedPos(v: Volume, v': Volume, k: nat, start: Cluster, n: nat, delta: nat)
    requires Relocated(v, v', k)
    ensures PosIn(v', Walk(v', start, n), delta) == Further(PosIn(v, Walk(v, start, n), delta), k)
  {
    hide Relocated, Walk, Geometry.ClusterPos;
    RelocatedWalk(v, v', k, start, n);
    if Walk(v, start, n).Some? {
      RelocatedEntry(v, v', k, Walk(v, start, n).value);
    }
  }

  // So do all places.
  lemma RelocatedPlaces(v: Volume, v': Volume, k: nat, start: Cluster, offset: nat, j: nat)
    requires Relocated(v, v', k)
    ensures FilePos(v', start, offset) == Further(FilePos(v, start, offset), k)
    ensures BlockPos(v', start, offset, j) == Further(BlockPos(v, start, offset, j), k)
  {
    var cs := v.ClusterSize();
    assert v'.ClusterSize() == cs;
    hide Relocated, Walk, Geometry.ClusterSize, PosIn;
    RelocatedPos(v, v', k, start, IndexOf(v, offset), offset % cs);
    RelocatedPos(v, v', k, start, IndexOf(v, offset) + IndexOf(v, j), offset % cs + j % cs);
  }

  lemma RelocatedByte(v: Volume, v': Volume, k: nat, pos: Option<int>)
    requires Relocated(v, v', k) && (pos.Some? ==> pos.value >= 0)
    ensures ByteAt(v', Further(pos, k)) == ByteAt(v, pos)
  {
    if pos.Some? && pos.value < |v.disk| {
      assert v'.disk[k..][pos.value] == v.disk[pos.value];
    }
  }

  // A block is read alike, wherever the volume lies.
  lemma RelocatedBlock(v: Volume, v': Volume, k: nat, start: Cluster, offset: nat, total: nat)
    requires Relocated(v, v', k) && BlockOnDisk(v, start, offset, total)
    ensures BlockOnDisk(v', start, offset, total)
    ensures BlockReachable(v', start, offset, total) == BlockReachable(v, start, offset, total)
    ensures BlockBytes(v', start, offset, total) == BlockBytes(v, start, offset, total)
  {
    hide BlockPos, FilePos, ByteAt;
    forall j: nat | j < total
      ensures BlockPos(v', start, offset, j) == Further(BlockPos(v, start, offset, j), k)
      ensures ByteAt(v', BlockPos(v', start, offset, j)) == ByteAt(v, BlockPos(v, start, offset, j))
    {
      RelocatedPlaces(v, v', k, start, offset, j);
      RelocatedByte(v, v', k, BlockPos(v, start, offset, j));
    }
  }

  // And so is every call.
  lemma RelocatedRead(v: Volume, v': Volume, k: nat, start: Cluster, offset: nat, size: nat, n: nat)
    requires Relocated(v, v', k) && ReadOnDisk(v, start, offset, size, n)
    ensures ReadOnDisk(v', start, offset, size, n)
    ensures ReadReachable(v', start, offset, size, n) == ReadReachable(v, start, offset, size, n)
    ensures ReadBytes(v', start, offset, size, n) == ReadBytes(v, start, offset, size, n)
  {
    hide BlockOnDisk, BlockReachable, BlockBytes, Relocated, ReadBytes;
    forall i: nat | i < n
      ensures BlockOnDisk(v', start, offset + i * size, size)
      ensures BlockReachable(v', start, offset + i * size, size) == BlockReachable(v, start, offset + i * size, size)
      ensures BlockBytes(v', start, offset + i * size, size) == BlockBytes(v, start, offset + i * size, size)
    {
      RelocatedBlock(v, v', k, start, offset + i * size, size);
    }
    SameBlocksSameBytes(v, v', start, offset, size, n);
  }

  lemma {:induction false} SameBlocksSameBytes(v: Volume, v': Volume, start: Cluster, offset: nat, size: nat, n: nat)
    requires forall i: nat :: i < n ==>
      BlockBytes(v', start, offset + i * size, size) == BlockBytes(v, start, offset + i * size, size)
    ensures ReadBytes(v', start, offset, size, n) == ReadBytes(v, start, offset, size, n)
  {
    hide BlockBytes;
    if n > 0 {
      SameBlocksSameBytes(v, v', start, offset, size, n - 1);
    }
  }

  // The file is the same one.
  lemma RelocatedFile(v: Volume, v': Volume, k: nat, start: Cluster, n: nat)
    requires Relocated(v, v', k) && HasClusters(v, start, n) && DataClear(v, start, 0, n * v.ClusterSize())
    ensures HasClusters(v', start, n)
    ensures File(v', start, n) == File(v, start, n)
  {
    RelocatedClusters(v, v', k, start, n);
    FileByteAt(v, start, n, 0);
    FileByteAt(v', start, n, 0);
    assert v'.ClusterSize() == v.ClusterSize();
    hide Geometry.ClusterSize, FilePos, ByteAt, HasClusters, File;
    forall i | 0 <= i < n * v.ClusterSize()
      ensures File(v', start, n)[i] == File(v, start, n)[i]
    {
      FileByteAt(v, start, n, i);
      FileByteAt(v', start, n, i);
      RelocatedPlaces(v, v', k, start, i, 0);
      RelocatedByte(v, v', k, FilePos(v, start, i));
    }
  }

  lemma {:induction false} RelocatedClusters(v: Volume, v': Volume, k: nat, cluster: Cluster, n: nat)
    requires Relocated(v, v', k)
    ensures HasClusters(v', cluster, n) == HasClusters(v, cluster, n)
    decreases n
  {
    hide Geometry.ClusterPos, Geometry.EntryPos, Entry, Relocated;
    RelocatedEntry(v, v', k, cluster);
    if n > 1 {
      RelocatedClusters(v, v', k, Entry(v, cluster), n - 1);
    }
  }

  // ----- When a block is read right -----

  // Cluster number m of the file is followed on the device by cluster number m + 1.
  predicate Adjacent(v: Volume, start: Cluster, m: nat) {
    && Walk(v, start, m).Some?
    && Walk(v, start, m + 1) == Some(Walk(v, start, m).value + 1)
  }

  // The block starts on a cluster boundary, or every chunk that runs over the end of its
  // cluster runs into the next one of the file. A block that stays inside one cluster
  // has no such chunk.
  ghost predicate RunsOn(v: Volume, start: Cluster, offset: nat, total: nat) {
    var r := offset % v.ClusterSize();
    r == 0 ||
    forall m: nat :: IndexOf(v, offset) <= m && (m - IndexOf(v, offset)) * v.ClusterSize() + v.ClusterSize() - r < total ==>
      Adjacent(v, start, m)
  }

  ghost predicate RightPlaces(v: Volume, start: Cluster, offset: nat, total: nat) {
    forall j: nat :: j < total ==> BlockPos(v, start, offset, j) == FilePos(v, start, offset + j)
  }

  // Where byte j of the block lies and where it is read from, in terms of its chunk.
  lemma PlacesOf(v: Volume, start: Cluster, offset: nat, j: nat)
    ensures var cs := v.ClusterSize();
            var r, n, k, d := offset % cs, IndexOf(v, offset), IndexOf(v, j), j % cs;
            && BlockPos(v, start, offset, j) == PosIn(v, Walk(v, start, n + k), r + d)
            && FilePos(v, start, offset + j) ==
               (if r + d < cs then PosIn(v, Walk(v, start, n + k), r + d)
                else PosIn(v, Walk(v, start, n + k + 1), r + d - cs))
  {
    hide Geometry.ClusterSize, Geometry.ClusterPos, Walk;
    DivOfSum(offset, j, v.ClusterSize());
  }

  lemma ClusterPosStep(v: Volume, a: Cluster, b: Cluster)
    ensures v.ClusterPos(b) - v.ClusterPos(a) == (b - a) * v.ClusterSize()
  {
    var spc, bps := v.sectorsPerCluster, v.bytesPerSector;
    Distribute(b - 2, -(a - 2), spc);
    assert (-(a - 2)) * spc == -((a - 2) * spc);
    assert v.ClusterToSector(b) - v.ClusterToSector(a) == (b - a) * spc;
    Distribute(v.ClusterToSector(b), -v.ClusterToSector(a), bps);
    assert (-v.ClusterToSector(a)) * bps == -(v.ClusterToSector(a) * bps);
    assert ((b - a) * spc) * bps == (b - a) * (spc * bps);
  }

  // Moving on by one cluster's size is moving to the next cluster exactly when the two
  // cluster numbers are consecutive.
  lemma NextOnDevice(v: Volume, a: Cluster, b: Cluster)
    ensures v.ClusterPos(b) == v.ClusterPos(a) + v.ClusterSize() <==> b == a + 1
  {
    ClusterPosStep(v, a, b);
    Distribute(b - a, -1, v.ClusterSize());
    if v.ClusterPos(b) == v.ClusterPos(a) + v.ClusterSize() {
      NoMultipleBetween(b - a - 1, v.ClusterSize());
    }
  }

  lemma RunsOnMeansRight(v: Volume, start: Cluster, offset: nat, total: nat)
    requires RunsOn(v, start, offset, total)
    ensures RightPlaces(v, start, offset, total)
  {
    forall j: nat | j < total
      ensures BlockPos(v, start, offset, j) == FilePos(v, start, offset + j)
    {
      RightPlace(v, start, offset, total, j);
    }
  }

  lemma RightPlace(v: Volume, start: Cluster, offset: nat, total: nat, j: nat)
    requires RunsOn(v, start, offset, total) && j < total
    ensures BlockPos(v, start, offset, j) == FilePos(v, start, offset + j)
  {
    var cs, r, n := v.ClusterSize(), offset % v.ClusterSize(), IndexOf(v, offset);
    var k, d := IndexOf(v, j), j % cs;
    assert j == k * cs + d && d < cs && r < cs;
    hide Geometry.ClusterSize, Geometry.ClusterPos, Walk, IndexOf;
    PlacesOf(v, start, offset, j);
    if r + d >= cs {
      var m := n + k;
      assert m - n == k;
      assert Adjacent(v, start, m);
      NextOnDevice(v, Walk(v, start, m).value, Walk(v, start, m + 1).value);
    }
  }

  lemma RightMeansRunsOn(v: Volume, start: Cluster, offset: nat, total: nat)
    requires total > 0 ==> FilePos(v, start, offset + total - 1).Some?
    requires RightPlaces(v, start, offset, total)
    ensures RunsOn(v, start, offset, total)
  {
    var cs, r, n := v.ClusterSize(), offset % v.ClusterSize(), IndexOf(v, offset);
    if r > 0 {
      forall m: nat | n <= m && (m - n) * cs + cs - r < total
        ensures Adjacent(v, start, m)
      {
        var j := (m - n) * cs + cs - r;
        PlacesOf(v, start, offset, j);
        DivModUnique(j, cs, m - n, cs - r);
        DivMonotone(offset + j, offset + total - 1, cs);
        WalkSplit(v, start, IndexOf(v, offset + j), IndexOf(v, offset + total - 1) - IndexOf(v, offset + j));
        WalkSplit(v, start, m, 1);
        NextOnDevice(v, Walk(v, start, m).value, Walk(v, start, m + 1).value);
      }
    }
  }

  // On a file that is long enough, the block read looks in the right places exactly when
  // the block runs on.
  lemma RightExactlyWhenRunsOn(v: Volume, start: Cluster, offset: nat, total: nat)
    requires total > 0 ==> FilePos(v, start, offset + total - 1).Some?
    ensures RightPlaces(v, start, offset, total) <==> RunsOn(v, start, offset, total)
  {
    if RunsOn(v, start, offset, total) {
      RunsOnMeansRight(v, start, offset, total);
    }
    if RightPlaces(v, start, offset, total) {
      RightMeansRunsOn(v, start, offset, total);
    }
  }

  // ----- Every device with the same table -----

  ghost predicate SameTable(v: Volume, v': Volume) {
    && v'.(disk := v.disk) == v
    && |v'.disk| == |v.disk|
    && forall c: Cluster :: Entry(v', c) == Entry(v, c)
  }

  // The data of the file lies on the device and outside the table.
  ghost predicate DataClear(v: Volume, start: Cluster, offset: nat, total: nat) {
    forall i: nat :: offset <= i < offset + total ==>
      && FilePos(v, start, i).Some?
      && 0 <= FilePos(v, start, i).value < |v.disk|
      && !(v.EntryPos(0) <= FilePos(v, start, i).value < v.EntryPos(CLUSTER_LIMIT))
  }

  lemma {:induction false} SameWalk(v: Volume, v': Volume, cluster: Cluster, n: nat)
    requires SameTable(v, v')
    ensures Walk(v', cluster, n) == Walk(v, cluster, n)
    decreases n
  {
    if n > 0 && !IsStop(Entry(v, cluster)) {
      SameWalk(v, v', Entry(v, cluster), n - 1);
    }
  }

  lemma SamePlaces(v: Volume, v': Volume, start: Cluster, offset: nat, j: nat)
    requires SameTable(v, v')
    ensures BlockPos(v', start, offset, j) == BlockPos(v, start, offset, j)
    ensures FilePos(v', start, offset) == FilePos(v, start, offset)
  {
    SamePos(v, v', start, IndexOf(v, offset) + IndexOf(v, j), offset % v.ClusterSize() + j % v.ClusterSize());
    SamePos(v, v', start, IndexOf(v, offset), offset % v.ClusterSize());
    assert v'.ClusterSize() == v.ClusterSize();
    hide SameTable, Walk, PosIn, Geometry.ClusterSize;
  }

  lemma SamePos(v: Volume, v': Volume, start: Cluster, n: nat, delta: nat)
    requires SameTable(v, v')
    ensures PosIn(v', Walk(v', start, n), delta) == PosIn(v, Walk(v, start, n), delta)
  {
    SameWalk(v, v', start, n);
    hide Walk;
  }

  // A device that differs in one byte of data.
  lemma ChangeByte(v: Volume, p: nat, b: Byte) returns (v': Volume)
    requires p < |v.disk| && !(v.EntryPos(0) <= p < v.EntryPos(CLUSTER_LIMIT))
    ensures SameTable(v, v')
    ensures ByteAt(v', Some(p)) == b
    ensures forall q :: q != Some(p) ==> ByteAt(v', q) == ByteAt(v, q)
  {
    v' := v.(disk := v.disk[p := b]);
    forall c: Cluster
      ensures Entry(v', c) == Entry(v, c)
    {
      assert v.EntryPos(0) <= v.EntryPos(c) < v.EntryPos(c) + 1 < v.EntryPos(CLUSTER_LIMIT);
    }
  }

  lemma BytesDiffer(v: Volume, start: Cluster, offset: nat, total: nat, j: nat)
    requires j < total && ByteAt(v, BlockPos(v, start, offset, j)) != ByteAt(v, FilePos(v, start, offset + j))
    ensures BlockBytes(v, start, offset, total) != FileBytes(v, start, offset, total)
  {
    hide BlockPos, FilePos, ByteAt;
    assert BlockBytes(v, start, offset, total)[j] != FileBytes(v, start, offset, total)[j];
  }

  // Looking in a wrong place shows on some device.
  lemma WrongOnSomeDevice(v: Volume, start: Cluster, offset: nat, total: nat, j: nat) returns (v': Volume)
    requires DataClear(v, start, offset, total) && j < total
    requires BlockPos(v, start, offset, j) != FilePos(v, start, offset + j)
    ensures SameTable(v, v') && BlockBytes(v', start, offset, total) != FileBytes(v', start, offset, total)
  {
    hide Geometry.EntryPos, BlockPos, BlockBytes, FileBytes, SameTable;
    var read := ByteAt(v, BlockPos(v, start, offset, j));
    v' := ChangeByte(v, FilePos(v, start, offset + j).value, (read as int + 1) % 0x100);
    SamePlaces(v, v', start, offset, j);
    SamePlaces(v, v', start, offset + j, 0);
    BytesDiffer(v', start, offset, total, j);
  }

  lemma RightOnEveryDevice(v: Volume, v': Volume, start: Cluster, offset: nat, total: nat)
    requires SameTable(v, v') && RunsOn(v, start, offset, total)
    ensures BlockBytes(v', start, offset, total) == FileBytes(v', start, offset, total)
  {
    RunsOnMeansRight(v, start, offset, total);
    forall j: nat | j < total
      ensures BlockBytes(v', start, offset, total)[j] == FileBytes(v', start, offset, total)[j]
    {
      SamePlaces(v, v', start, offset, j);
      SamePlaces(v, v', start, offset + j, 0);
    }
  }

  // Whatever the data on the device: the block read returns the bytes of the file at its
  // offset, for every content of the data area, if and only if the block runs on.
  lemma ExactOnEveryDevice(v: Volume, start: Cluster, offset: nat, total: nat)
    requires DataClear(v, start, offset, total)
    ensures (forall v': Volume :: SameTable(v, v') ==>
               BlockBytes(v', start, offset, total) == FileBytes(v', start, offset, total))
            <==> RunsOn(v, start, offset, total)
  {
    if RunsOn(v, start, offset, total) {
      forall v': Volume | SameTable(v, v')
        ensures BlockBytes(v', start, offset, total) == FileBytes(v', start, offset, total)
      {
        RightOnEveryDevice(v, v', start, offset, total);
      }
    } else {
      if RightPlaces(v, start, offset, total) {
        RightMeansRunsOn(v, start, offset, total);
      }
      var j: nat :| j < total && BlockPos(v, start, offset, j) != FilePos(v, start, offset + j);
      var v' := WrongOnSomeDevice(v, start, offset, total, j);
    }
  }

  // A 16-bit number on the device.
  function Half(v: Volume, pos: nat): nat
    requires pos + 1 < |v.disk|
  {
    (v.disk[pos] as int) + 0x100 * (v.disk[pos + 1] as int)
  }

  // Where the resolver looks for the volume: at the first of the four partitions that is a FAT16
  // one, or at the start of the device.
  function PartitionOffset(disk: seq<Byte>, i: nat): nat
    requires i <= 4 && 512 <= |disk|
    decreases 4 - i
  {
    if i == 4 then 0
    else
      var at := 0x1BE + 16 * i;
      if disk[at + 4] in {0x04, 0x06, 0x0E} then
        ((disk[at + 8] as int) + 0x100 * (disk[at + 9] as int) + 0x1_0000 * (disk[at + 10] as int)
         + 0x100_0000 * (disk[at + 11] as int)) * 512 % WORD_LIMIT
      else PartitionOffset(disk, i + 1)
  }

  // The device is mounted with the geometry its boot record states: the signatures are there.
  predicate IsMounted(v: Volume) {
    var p := v.partitionOffset;
    && 512 <= |v.disk| && v.disk[510] == 0x55 && v.disk[511] == 0xAA
    && p == PartitionOffset(v.disk, 0) && p + 512 <= |v.disk| && v.disk[p + 38] == 0x29
    && v.bytesPerSector == Half(v, p + 11) && v.sectorsPerCluster == v.disk[p + 13] as int
    && v.reservedSectors == Half(v, p + 14)
    && v.endingSectorPos ==
       v.reservedSectors + (v.disk[p + 16] as int) * Half(v, p + 22) + Half(v, p + 17) * 32 / v.bytesPerSector
  }

  // A file of 1024 bytes whose second cluster is not the next one on the device, in a partition
  // at 1 MB: the partition table; the boot record, the entries of clusters 2 and 9, the
  // directory entry, and a byte of the file.
  function SplitByte(i: int): Byte {
    match i
    case 0x1C2 => 0x0E case 0x1C7 => 8 case 510 => 0x55 case 511 => 0xAA
    case 0x10_000C => 2 case 0x10_000D => 1 case 0x10_000E => 1 case 0x10_0010 => 1 case 0x10_0011 => 16
    case 0x10_0014 => 2 case 0x10_0016 => 255 case 0x10_0026 => 0x29
    case 0x10_0204 => 9 case 0x10_0212 => 0xFF case 0x10_0213 => 0xFF
    case 0x12_0000 => 0x41 case 0x12_000B => 0x20 case 0x12_001A => 2 case 0x12_001D => 4
    case 0x12_1000 => 7
    case _ => if 0x12_0000 < i < 0x12_000B then 0x20 else 0
  }

  const SPLIT_FILE: Volume :=
    Geometry(seq<Byte>(0x14_0000, i => SplitByte(i)), 0x10_0000, 1, 512, 1, 0x101)

  // Two bytes from offset 511 on are read as the last byte of the first cluster and a byte of
  // a stranger.
  lemma UnalignedReadGoesWrong()
    ensures IsMounted(SPLIT_FILE)
    ensures HasClusters(SPLIT_FILE, 2, 2)
    ensures BlockReachable(SPLIT_FILE, 2, 511, 2)
    ensures BlockBytes(SPLIT_FILE, 2, 511, 2) != FileBytes(SPLIT_FILE, 2, 511, 2)
  {
    var v: Volume := SPLIT_FILE;
    assert Entry(v, 2) == 9;
    assert v.ClusterSize() == 512;
    assert v.ClusterPos(2) == 0x12_0200 && v.ClusterPos(9) == 0x12_1000;
    assert Walk(v, 2, 0) == Some(2) && Walk(v, 2, 1) == Some(9);
    assert BlockPos(v, 2, 511, 1) == Some(0x12_0400) && FilePos(v, 2, 512) == Some(0x12_1000);
    assert BlockBytes(v, 2, 511, 2)[1] == 0 && FileBytes(v, 2, 511, 2)[1] == 7;
  }

  // ----- The whole read call -----

  lemma FileBytesSplit(v: Volume, start: Cluster, offset: nat, a: nat, b: nat)
    ensures FileBytes(v, start, offset, a) + FileBytes(v, start, offset + a, b) == FileBytes(v, start, offset, a + b)
  {
    hide FilePos;
    var front, back, whole :=
      FileBytes(v, start, offset, a), FileBytes(v, start, offset + a, b), FileBytes(v, start, offset, a + b);
    forall i | 0 <= i < a + b
      ensures (front + back)[i] == whole[i]
    {
      if i >= a {
        assert offset + a + (i - a) == offset + i;
      }
    }
  }

  // Every block of the call runs on: the call delivers the slice of the file.
  lemma {:induction false} ReadIsFile(v: Volume, start: Cluster, offset: nat, size: nat, n: nat)
    requires forall i: nat :: i < n ==> RunsOn(v, start, offset + i * size, size)
    ensures ReadBytes(v, start, offset, size, n) == FileBytes(v, start, offset, n * size)
  {
    if n > 0 {
      ReadIsFile(v, start, offset, size, n - 1);
      RunsOnMeansRight(v, start, offset + (n - 1) * size, size);
      Distribute(n - 1, 1, size);
      var done, last := (n - 1) * size, BlockBytes(v, start, offset + (n - 1) * size, size);
      assert last == FileBytes(v, start, offset + done, size);
      FileBytesSplit(v, start, offset, done, size);
    }
  }

  // Block i of the bytes of a call, and of the file.
  lemma {:induction false} BlockOfRead(v: Volume, start: Cluster, offset: nat, size: nat, n: nat, i: nat)
    requires i < n
    ensures i * size + size <= n * size
    ensures ReadBytes(v, start, offset, size, n)[i * size..i * size + size] == BlockBytes(v, start, offset + i * size, size)
  {
    hide BlockBytes;
    Distribute(n - 1, 1, size);
    if i < n - 1 {
      BlockOfRead(v, start, offset, size, n - 1, i);
      var front := ReadBytes(v, start, offset, size, n - 1);
      assert ReadBytes(v, start, offset, size, n)[..(n - 1) * size] == front;
      assert ReadBytes(v, start, offset, size, n)[i * size..i * size + size] == front[i * size..i * size + size];
    }
  }

  lemma BlockOfFile(v: Volume, start: Cluster, offset: nat, total: nat, a: nat, size: nat)
    requires a + size <= total
    ensures FileBytes(v, start, offset, total)[a..a + size] == FileBytes(v, start, offset + a, size)
  {
    hide FilePos;
    var whole, part := FileBytes(v, start, offset, total)[a..a + size], FileBytes(v, start, offset + a, size);
    forall j | 0 <= j < size
      ensures whole[j] == part[j]
    {
      assert offset + (a + j) == offset + a + j;
    }
  }

  lemma SameRunsOn(v: Volume, v': Volume, start: Cluster, offset: nat, total: nat)
    requires SameTable(v, v') && RunsOn(v, start, offset, total)
    ensures RunsOn(v', start, offset, total)
  {
    forall m: nat | Adjacent(v, start, m)
      ensures Adjacent(v', start, m)
    {
      SameWalk(v, v', start, m);
      SameWalk(v, v', start, m + 1);
    }
  }

  // All blocks of a call run on.
  ghost predicate AllRunOn(v: Volume, start: Cluster, offset: nat, size: nat, n: nat) {
    forall i: nat :: i < n ==> RunsOn(v, start, offset + i * size, size)
  }

  // A whole call: it delivers the bytes of the file, for every content of the data area, if
  // and only if all its blocks run on.
  lemma ExactCallOnEveryDevice(v: Volume, start: Cluster, offset: nat, size: nat, n: nat)
    requires DataClear(v, start, offset, n * size)
    ensures (forall v': Volume :: SameTable(v, v') ==>
               ReadBytes(v', start, offset, size, n) == FileBytes(v', start, offset, n * size))
            <==> AllRunOn(v, start, offset, size, n)
  {
    hide AllRunOn, DataClear, ReadBytes, FileBytes, SameTable;
    if AllRunOn(v, start, offset, size, n) {
      forall v': Volume | SameTable(v, v')
        ensures ReadBytes(v', start, offset, size, n) == FileBytes(v', start, offset, n * size)
      {
        CallOnEveryDevice(v, v', start, offset, size, n);
      }
    } else {
      var v' := CallGoesWrong(v, start, offset, size, n);
    }
  }

  lemma CallOnEveryDevice(v: Volume, v': Volume, start: Cluster, offset: nat, size: nat, n: nat)
    requires SameTable(v, v') && AllRunOn(v, start, offset, size, n)
    ensures ReadBytes(v', start, offset, size, n) == FileBytes(v', start, offset, n * size)
  {
    hide BlockBytes, FileBytes, ReadBytes, SameTable, RunsOn, FilePos;
    forall i: nat | i < n
      ensures RunsOn(v', start, offset + i * size, size)
    {
      SameRunsOn(v, v', start, offset + i * size, size);
    }
    ReadIsFile(v', start, offset, size, n);
  }

  lemma CallGoesWrong(v: Volume, start: Cluster, offset: nat, size: nat, n: nat) returns (v': Volume)
    requires DataClear(v, start, offset, n * size) && !AllRunOn(v, start, offset, size, n)
    ensures SameTable(v, v')
    ensures ReadBytes(v', start, offset, size, n) != FileBytes(v', start, offset, n * size)
  {
    hide BlockBytes, FileBytes, ReadBytes, SameTable, RunsOn, FilePos, DataClear;
    var i: nat :| i < n && !RunsOn(v, start, offset + i * size, size);
    v' := WrongBlock(v, start, offset, size, n, i);
    BlockOfRead(v', start, offset, size, n, i);
    BlockOfFile(v', start, offset, n * size, i * size, size);
  }

  lemma WrongBlock(v: Volume, start: Cluster, offset: nat, size: nat, n: nat, i: nat) returns (v': Volume)
    requires DataClear(v, start, offset, n * size) && i < n && !RunsOn(v, start, offset + i * size, size)
    ensures SameTable(v, v')
    ensures BlockBytes(v', start, offset + i * size, size) != FileBytes(v', start, offset + i * size, size)
  {
    hide BlockBytes, FileBytes, SameTable, RunsOn, FilePos;
    OneMoreBlock(i, n, size);
    ExactOnEveryDevice(v, start, offset + i * size, size);
    v' :| SameTable(v, v')
          && BlockBytes(v', start, offset + i * size, size) != FileBytes(v', start, offset + i * size, size);
  }

  lemma {:induction false} SameClusters(v: Volume, v': Volume, cluster: Cluster, k: nat)
    requires SameTable(v, v') && HasClusters(v, cluster, k)
    ensures HasClusters(v', cluster, k)
    decreases k
  {
    if k > 1 {
      SameClusters(v, v', Entry(v, cluster), k - 1);
    }
  }

  // The call delivers the slice of the concatenated clusters, for every content of the data
  // area, if and only if all its blocks run on.
  lemma ExactSliceOnEveryDevice(v: Volume, start: Cluster, k: nat, offset: nat, size: nat, n: nat)
    requires DataClear(v, start, offset, n * size)
    requires HasClusters(v, start, k) && offset + n * size <= k * v.ClusterSize()
    ensures (forall v': Volume :: SameTable(v, v') ==> IsSlice(v', start, k, offset, size, n))
            <==> AllRunOn(v, start, offset, size, n)
  {
    hide ReadBytes, FileBytes, File, AllRunOn, DataClear, HasClusters;
    ExactCallOnEveryDevice(v, start, offset, size, n);
    forall v': Volume | SameTable(v, v')
      ensures IsSlice(v', start, k, offset, size, n)
              <==> ReadBytes(v', start, offset, size, n) == FileBytes(v', start, offset, n * size)
    {
      SameClusters(v, v', start, k);
      FileBytesAreSlice(v', start, k, offset, n * size);
    }
  }

  ghost predicate IsSlice(v: Volume, start: Cluster, k: nat, offset: nat, size: nat, n: nat) {
    && HasClusters(v, start, k) && offset + n * size <= |File(v, start, k)|
    && ReadBytes(v, start, offset, size, n) == File(v, start, k)[offset..offset + n * size]
  }

  lemma {:induction false} ChainReaches(v: Volume, cluster: Cluster, k: nat, n: nat)
    requires HasClusters(v, cluster, k) && n < k
    ensures Walk(v, cluster, n).Some?
    decreases n
  {
    if n > 0 {
      ChainReaches(v, Entry(v, cluster), k - 1, n - 1);
    }
  }

  lemma BlockIsReachable(v: Volume, start: Cluster, k: nat, offset: nat, size: nat)
    requires start > 0 && HasClusters(v, start, k) && offset + size <= k * v.ClusterSize()
    ensures BlockReachable(v, start, offset, size)
  {
    var cs := v.ClusterSize();
    if size > 0 {
      assert IndexOf(v, offset) + IndexOf(v, size - 1) < k by {
        DivOfSum(offset, size - 1, cs);
        DivMonotone(offset + size - 1, k * cs - 1, cs);
        Distribute(k, -1, cs);
        DivModUnique(k * cs - 1, cs, k - 1, cs - 1);
      }
      hide IndexOf, Walk, Geometry.ClusterSize;
      ChainReaches(v, start, k, IndexOf(v, offset) + IndexOf(v, size - 1));
    }
  }

  // A file with enough clusters for the call is read without a failed assertion.
  lemma LongEnoughIsReachable(v: Volume, start: Cluster, k: nat, offset: nat, size: nat, n: nat)
    requires start > 0 && HasClusters(v, start, k) && offset + n * size <= k * v.ClusterSize()
    ensures ReadReachable(v, start, offset, size, n)
  {
    hide BlockReachable, HasClusters;
    forall i: nat | i < n
      ensures BlockReachable(v, start, offset + i * size, size)
    {
      OneMoreBlock(i, n, size);
      BlockIsReachable(v, start, k, offset + i * size, size);
    }
  }

  lemma ReadIsSlice(v: Volume, start: Cluster, k: nat, offset: nat, size: nat, n: nat)
    requires HasClusters(v, start, k) && offset + n * size <= k * v.ClusterSize()
    requires forall i: nat :: i < n ==> RunsOn(v, start, offset + i * size, size)
    ensures |File(v, start, k)| == k * v.ClusterSize()
    ensures ReadBytes(v, start, offset, size, n) == File(v, start, k)[offset..offset + n * size]
  {
    ReadIsFile(v, start, offset, size, n);
    FileBytesAreSlice(v, start, k, offset, n * size);
  }

  // ----- How many table entries a sequential read costs -----

  lemma {:induction false} LookupsCompose(v: Volume, start: Cluster, c: Cache, n: nat, k: nat, more: nat)
    ensures var c' := CacheAfter(v, start, c, n, k);
            && CacheAfter(v, start, c, n, k + more) == CacheAfter(v, start, c', n + k, more)
            && Cost(v, start, c, n, k + more) == Cost(v, start, c, n, k) + Cost(v, start, c', n + k, more)
  {
    hide NextCache, From;
    if more > 0 {
      LookupsCompose(v, start, c, n, k, more - 1);
      assert n + k + more - 1 == n + k + (more - 1);
    }
  }

  // A call that reads whole clusters: n blocks of m clusters each from cluster p on.
  function CallCost(v: Volume, start: Cluster, c: Cache, p: nat, m: nat, n: nat): nat {
    ReadCost(v, start, c, p * v.ClusterSize(), m * v.ClusterSize(), n)
  }

  function CacheAfterCall(v: Volume, start: Cluster, c: Cache, p: nat, m: nat, n: nat): Cache {
    CacheAfterRead(v, start, c, p * v.ClusterSize(), m * v.ClusterSize(), n)
  }

  lemma OneMoreOfClusters(v: Volume, start: Cluster, c: Cache, p: nat, m: nat, n: nat)
    requires n > 0
    ensures var c' := CacheAfterCall(v, start, c, p, m, n - 1);
            && CacheAfterCall(v, start, c, p, m, n) == CacheAfter(v, start, c', p + (n - 1) * m, m)
            && CallCost(v, start, c, p, m, n) == CallCost(v, start, c, p, m, n - 1) + Cost(v, start, c', p + (n - 1) * m, m)
  {
    hide CacheAfter, Cost, IndexOf, Chunks, Geometry.ClusterSize;
    BlockOfClusters(v, p, m, n - 1);
  }

  lemma NoLookups(v: Volume, start: Cluster, c: Cache, p: nat, m: nat)
    ensures CacheAfterCall(v, start, c, p, m, 0) == CacheAfter(v, start, c, p, 0) == c
    ensures CallCost(v, start, c, p, m, 0) == Cost(v, start, c, p, 0) == 0
  {
  }

  lemma {:induction false} WholeClusters(v: Volume, start: Cluster, c: Cache, p: nat, m: nat, n: nat)
    ensures CacheAfterCall(v, start, c, p, m, n) == CacheAfter(v, start, c, p, n * m)
    ensures CallCost(v, start, c, p, m, n) == Cost(v, start, c, p, n * m)
    decreases n
  {
    hide CacheAfterCall, CallCost, CacheAfter, Cost;
    if n == 0 {
      NoLookups(v, start, c, p, m);
    } else {
      WholeClusters(v, start, c, p, m, n - 1);
      OneMoreOfClusters(v, start, c, p, m, n);
      var done, all := (n - 1) * m, n * m;
      assert all == done + m by {
        Distribute(n - 1, 1, m);
      }
      LookupsCompose(v, start, c, p, done, m);
      assert CallCost(v, start, c, p, m, n) == Cost(v, start, c, p, all);
    }
  }

  lemma BlockOfClusters(v: Volume, p: nat, m: nat, i: nat)
    ensures IndexOf(v, p * v.ClusterSize() + i * (m * v.ClusterSize())) == p + i * m
    ensures Chunks(v, m * v.ClusterSize()) == m
  {
    var cs := v.ClusterSize();
    assert i * (m * cs) == (i * m) * cs;
    Distribute(p, i * m, cs);
    DivOfMultiple(p + i * m, cs);
    DivModUnique(m * cs + (cs - 1), cs, m, cs - 1);
  }

  // Reading clusters 0..k in order: nothing for the first, at most one entry for each other.
  lemma {:induction false} SequentialCost(v: Volume, start: Cluster, c: Cache, k: nat)
    requires CacheOk(v, start, c) && k > 0 && Walk(v, start, k - 1).Some?
    ensures Cost(v, start, c, 0, k) <= k - 1
    ensures c.cluster == 0 ==> Cost(v, start, c, 0, k) == k - 1
    ensures k == 1 ==> CacheAfter(v, start, c, 0, k) == c
    ensures k > 1 ==> CacheAfter(v, start, c, 0, k) == Cache(Walk(v, start, k - 1).value, (k - 1) * v.ClusterSize())
  {
    OneMoreLookup(v, start, c, 0, k - 1);
    if k > 1 {
      WalkSplit(v, start, k - 2, 1);
      SequentialCost(v, start, c, k - 1);
      var c' := CacheAfter(v, start, c, 0, k - 1);
      if k > 2 {
        DivOfMultiple(k - 2, v.ClusterSize());
      }
      assert CacheOk(v, start, c');
      CachedLookupAgrees(v, start, c', k - 1);
    }
  }

  // A run of read calls, each of n blocks of m clusters, from cluster p on.
  function Total(calls: seq<(nat, nat)>): nat {
    if calls == [] then 0 else calls[0].0 * calls[0].1 + Total(calls[1..])
  }

  function RunCost(v: Volume, start: Cluster, c: Cache, p: nat, calls: seq<(nat, nat)>): nat
    decreases calls
  {
    if calls == [] then 0
    else
      var (n, m) := calls[0];
      CallCost(v, start, c, p, m, n) + RunCost(v, start, CacheAfterCall(v, start, c, p, m, n), p + n * m, calls[1..])
  }

  lemma {:induction false} AnySplitCostsTheSame(v: Volume, start: Cluster, c: Cache, p: nat, calls: seq<(nat, nat)>)
    ensures RunCost(v, start, c, p, calls) == Cost(v, start, c, p, Total(calls))
    decreases calls
  {
    hide CallCost, CacheAfterCall, CacheAfter, Cost;
    if calls == [] {
      NoLookups(v, start, c, p, 0);
    } else {
      var (n, m) := calls[0];
      var all, rest := n * m, calls[1..];
      WholeClusters(v, start, c, p, m, n);
      AnySplitCostsTheSame(v, start, CacheAfter(v, start, c, p, all), p + all, rest);
      LookupsCompose(v, start, c, p, all, Total(rest));
      assert RunCost(v, start, c, p, calls)
             == Cost(v, start, c, p, all) + RunCost(v, start, CacheAfter(v, start, c, p, all), p + all, rest);
    }
  }

  // k whole clusters read in order from position 0, however split into calls and from any
  // correct cache, cost at most k - 1 table entries, and exactly k - 1 from an empty cache.
  lemma SequentialReadCost(v: Volume, start: Cluster, c: Cache, calls: seq<(nat, nat)>)
    requires CacheOk(v, start, c) && Total(calls) > 0 && Walk(v, start, Total(calls) - 1).Some?
    ensures RunCost(v, start, c, 0, calls) <= Total(calls) - 1
    ensures c.cluster == 0 ==> RunCost(v, start, c, 0, calls) == Total(calls) - 1
  {
    AnySplitCostsTheSame(v, start, c, 0, calls);
    SequentialCost(v, start, c, Total(calls));
  }
}
