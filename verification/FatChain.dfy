// The cluster chain of a FAT16 file and the per-descriptor cache of the walk along it.
module FatChain {
  import opened Words
  import opened Wrappers
  import opened Arithmetic
  import opened Disk

  const FAT_ENTRY_SIZE := 2
  const CLUSTER_LIMIT := 0x1_0000

  // The FAT entries the walk stops at: end of chain, bad, reserved and unused.
  predicate IsStop(entry: nat) {
    entry == 0xFFF8 || entry == 0xFFFF || entry == 0xFF7 || entry == 0xFF0 || entry == 0xFF6 || entry == 0
  }

  // The geometry of a mounted volume and the device it lives on.
  datatype Geometry = Geometry(disk: seq<Byte>, partitionOffset: nat, reservedSectors: nat,
                           bytesPerSector: nat, sectorsPerCluster: nat, endingSectorPos: nat)
  {
    function ClusterSize(): nat { sectorsPerCluster * bytesPerSector }

    function ClusterToSector(cluster: int): int { endingSectorPos + (cluster - 2) * sectorsPerCluster }

    function SectorToAbsolute(sector: int): int { partitionOffset + sector * bytesPerSector }

    function ClusterPos(cluster: int): int { SectorToAbsolute(ClusterToSector(cluster)) }

    function EntryPos(cluster: nat): nat { SectorToAbsolute(reservedSectors) + cluster * FAT_ENTRY_SIZE }

    // The device is addressable and carries a table entry for every 16-bit cluster.
    predicate Valid() {
      && IsDisk(disk)
      && bytesPerSector > 0 && sectorsPerCluster > 0
      && ClusterSize() > 0
      && EntryPos(CLUSTER_LIMIT) < |disk|
    }
  }

  type Volume = g: Geometry | g.Valid()
    witness Geometry(seq(0x4_0000, _ => 0), 0, 1, 512, 1, 0)

  type Cluster = x: int | 0 <= x < CLUSTER_LIMIT

  // The position on the chain of the cluster that holds a byte offset.
  function IndexOf(v: Volume, offset: nat): nat {
    offset / v.ClusterSize()
  }

  function Entry(v: Volume, cluster: Cluster): Cluster {
    (v.disk[v.EntryPos(cluster)] as int) + 0x100 * (v.disk[v.EntryPos(cluster) + 1] as int)
  }

  // The cluster reached from the given one by n steps along the table.
  function Walk(v: Volume, cluster: Cluster, n: nat): (r: Option<Cluster>)
    ensures r.Some? && n > 0 ==> r.value > 0
    decreases n
  {
    if n == 0 then Some(cluster)
    else if IsStop(Entry(v, cluster)) then None
    else Walk(v, Entry(v, cluster), n - 1)
  }

  // The walk fails exactly when one of the entries it reads on the way is an end of chain, a
  // bad cluster, one of the two reserved values the code knows, or unused.
  lemma {:induction false} WalkFailsExactly(v: Volume, cluster: Cluster, n: nat)
    ensures Walk(v, cluster, n).None? <==>
      exists i: nat :: i < n && Walk(v, cluster, i).Some?
        && Entry(v, Walk(v, cluster, i).value) in {0xFFF8, 0xFFFF, 0xFF7, 0xFF0, 0xFF6, 0}
    decreases n
  {
    if n > 0 {
      WalkFailsExactly(v, cluster, n - 1);
      WalkSplit(v, cluster, n - 1, 1);
    }
  }

  lemma {:induction false} WalkSplit(v: Volume, cluster: Cluster, m: nat, n: nat)
    ensures Walk(v, cluster, m).None? ==> Walk(v, cluster, m + n).None?
    ensures Walk(v, cluster, m).Some? ==> Walk(v, cluster, m + n) == Walk(v, Walk(v, cluster, m).value, n)
    decreases m
  {
    if m > 0 && !IsStop(Entry(v, cluster)) {
      WalkSplit(v, Entry(v, cluster), m - 1, n);
    }
  }

  // ----- The cluster cache of a descriptor -----

  // cluster is 0 while the cache is empty.
  datatype Cache = Cache(cluster: Cluster, offsetBytes: nat)

  const EMPTY := Cache(0, 0)

  predicate CacheOk(v: Volume, start: Cluster, c: Cache)
  {
    c.cluster == 0 ||
    (&& c.offsetBytes >= v.ClusterSize()
     && c.offsetBytes % v.ClusterSize() == 0
     && c.cluster > 0
     && Walk(v, start, c.offsetBytes / v.ClusterSize()) == Some(c.cluster))
  }

  // Where the cached lookup of the n-th cluster starts walking: the cached cluster when it
  // lies at or before the target, the first cluster of the file otherwise.
  function From(v: Volume, start: Cluster, c: Cache, n: nat): (r: (Cluster, nat))
    ensures r.1 <= n
  {
    if n > 0 && c.cluster != 0 && c.offsetBytes / v.ClusterSize() <= n
    then (c.cluster, c.offsetBytes / v.ClusterSize())
    else (start, 0)
  }

  // The lookup as the descriptor performs it.
  function CachedWalk(v: Volume, start: Cluster, c: Cache, n: nat): Option<Cluster> {
    var (cluster, pos) := From(v, start, c, n);
    Walk(v, cluster, n - pos)
  }

  function NextCache(v: Volume, start: Cluster, c: Cache, n: nat): Cache {
    if n > 0 && CachedWalk(v, start, c, n).Some?
    then Cache(CachedWalk(v, start, c, n).value, n * v.ClusterSize())
    else c
  }

  // Table entries a successful lookup reads.
  function LookupCost(v: Volume, start: Cluster, c: Cache, n: nat): nat {
    n - From(v, start, c, n).1
  }

  // One lookup through any correct cache answers like the walk from the first cluster,
  // failures included, and leaves a correct cache.
  lemma CachedLookupAgrees(v: Volume, start: Cluster, c: Cache, n: nat)
    requires CacheOk(v, start, c)
    ensures CachedWalk(v, start, c, n) == Walk(v, start, n)
    ensures CacheOk(v, start, NextCache(v, start, c, n))
  {
    var (cluster, pos) := From(v, start, c, n);
    WalkSplit(v, start, pos, n - pos);
    DivOfMultiple(n, v.ClusterSize());
  }

  // The cases of a lookup.
  lemma LookupCases(v: Volume, start: Cluster, c: Cache, n: nat)
    requires CacheOk(v, start, c)
    ensures CacheOk(v, start, NextCache(v, start, c, n))
    ensures n == 0 ==>
      Walk(v, start, n) == Some(start) && NextCache(v, start, c, n) == c && LookupCost(v, start, c, n) == 0
    ensures n > 0 ==>
      var (cluster, pos) := From(v, start, c, n);
      && Walk(v, cluster, n - pos) == Walk(v, start, n)
      && LookupCost(v, start, c, n) == n - pos
      && (cluster, pos) == (if c.cluster != 0 && c.offsetBytes / v.ClusterSize() <= n
                            then (c.cluster, c.offsetBytes / v.ClusterSize()) else (start, 0))
      && (pos == n ==> Walk(v, start, n) == Some(c.cluster) && NextCache(v, start, c, n) == c)
      && NextCache(v, start, c, n) == (if Walk(v, start, n).Some? then Cache(Walk(v, start, n).value, n * v.ClusterSize()) else c)
  {
    CachedLookupAgrees(v, start, c, n);
    if n > 0 && From(v, start, c, n).1 == n {
      WholeClusters(c.offsetBytes, v.ClusterSize());
    }
  }

  lemma WholeClusters(bytes: nat, size: nat)
    requires size > 0 && bytes % size == 0
    ensures bytes / size * size == bytes
  {
  }

  lemma WalkShorter(v: Volume, cluster: Cluster, m: nat, n: nat)
    requires m <= n && Walk(v, cluster, n).Some?
    ensures Walk(v, cluster, m).Some?
  {
    WalkSplit(v, cluster, m, n - m);
  }

  // A history of lookups on one descriptor: every answer, and the cache it leaves.
  function Lookups(v: Volume, start: Cluster, c: Cache, targets: seq<nat>): (seq<Option<Cluster>>, Cache)
    decreases targets
  {
    if targets == [] then ([], c)
    else
      var (answers, c') := Lookups(v, start, NextCache(v, start, c, targets[0]), targets[1..]);
      ([CachedWalk(v, start, c, targets[0])] + answers, c')
  }

  lemma {:induction false} HistoryAgrees(v: Volume, start: Cluster, c: Cache, targets: seq<nat>)
    requires CacheOk(v, start, c)
    ensures |Lookups(v, start, c, targets).0| == |targets|
    ensures forall i :: 0 <= i < |targets| ==> Lookups(v, start, c, targets).0[i] == Walk(v, start, targets[i])
    ensures CacheOk(v, start, Lookups(v, start, c, targets).1)
    decreases targets
  {
    if targets != [] {
      CachedLookupAgrees(v, start, c, targets[0]);
      HistoryAgrees(v, start, NextCache(v, start, c, targets[0]), targets[1..]);
    }
  }

  // ----- Looking up k clusters in a row, as the chunk loop does -----

  function CacheAfter(v: Volume, start: Cluster, c: Cache, n: nat, k: nat): Cache {
    if k == 0 then c else NextCache(v, start, CacheAfter(v, start, c, n, k - 1), n + k - 1)
  }

  function Cost(v: Volume, start: Cluster, c: Cache, n: nat, k: nat): nat
  {
    if k == 0 then 0
    else Cost(v, start, c, n, k - 1) + LookupCost(v, start, CacheAfter(v, start, c, n, k - 1), n + k - 1)
  }

  lemma OneMoreLookup(v: Volume, start: Cluster, c: Cache, n: nat, k: nat)
    requires CacheOk(v, start, c)
    ensures CacheAfter(v, start, c, n, k + 1) == NextCache(v, start, CacheAfter(v, start, c, n, k), n + k)
    ensures Cost(v, start, c, n, k + 1)
            == Cost(v, start, c, n, k) + LookupCost(v, start, CacheAfter(v, start, c, n, k), n + k)
  {
  }
}
