/** Where a FAT32 volume keeps its allocation tables and its data clusters, and what each write touches. */
module FatLayout {
  import opened Bytes

  const FREE: nat := 0
  const BAD: nat := 0x0FFF_FFF7
  const EOC_MIN: nat := 0x0FFF_FFF8
  const EOC: nat := 0x0FFF_FFFF
  const FIRST: nat := 2

  predicate IsEoc(v: nat) {
    v % TWO28 >= EOC_MIN
  }

  /** The mount's geometry fields, in the source's order. */
  datatype Geometry = Geometry(bytesPerSec: nat, secPerClus: nat, clusterSize: nat, fatStart: nat, fatSize: nat,
                               numFats: nat, dataStart: nat, clusters: nat) {

    /** One past the last valid cluster number. */
    function Total(): nat { clusters + FIRST }

    /** The derived fields are what mounting computes, the table is large enough for every cluster, cluster numbers stay
        below the special values, a cluster fits the one-frame scratch buffers, and directory entries do not straddle
        clusters. */
    predicate WellFormed() {
      && clusterSize > 0 && numFats > 0
      && clusterSize == bytesPerSec * secPerClus
      && dataStart == fatStart + numFats * fatSize
      && 4 * Total() <= fatSize * bytesPerSec
      && Total() <= BAD
      && clusterSize <= 4096 && clusterSize % 32 == 0
    }

    function DeviceBytes(): nat { (dataStart + clusters * secPerClus) * bytesPerSec }

    function FatOffset(copy: nat, c: nat): nat {
      (fatStart + copy * fatSize) * bytesPerSec + c * 4
    }

    function ClusterOffset(c: nat): nat
      requires FIRST <= c
    {
      (dataStart + (c - FIRST) * secPerClus) * bytesPerSec
    }

    predicate Fits(disk: seq<byte>) {
      WellFormed() && |disk| >= DeviceBytes()
    }
  }

  lemma MulMono(a: nat, b: nat, k: nat)
    requires a <= b
    ensures a * k <= b * k
  {
  }

  lemma CopiesBefore(start: nat, size: nat, i: nat, j: nat, b: nat)
    requires i <= j
    ensures (start + i * size) * b <= (start + j * size) * b
  {
  }

  /** Slots of one copy do not overlap, the copies lie one behind the other, and all lie before the data. */
  lemma FatSlotsApart(g: Geometry, i: nat, c: nat, j: nat, d: nat)
    requires g.WellFormed() && i < g.numFats && j < g.numFats && c < g.Total() && d < g.Total()
    ensures (i == j && c == d) || g.FatOffset(i, c) + 4 <= g.FatOffset(j, d)
            || g.FatOffset(j, d) + 4 <= g.FatOffset(i, c)
  {
    if i < j {
      CopyEnds(g.fatStart, g.fatSize, g.bytesPerSec, i, j, c, g.Total());
    } else if j < i {
      CopyEnds(g.fatStart, g.fatSize, g.bytesPerSec, j, i, d, g.Total());
    }
  }

  /** An entry of copy `i` ends before copy `i + 1` starts, and so before copy `j` for any later `j`. */
  lemma CopyEnds(start: nat, size: nat, b: nat, i: nat, j: nat, c: nat, total: nat)
    requires i < j && c < total && 4 * total <= size * b
    ensures (start + i * size) * b + c * 4 + 4 <= (start + j * size) * b
  {
    assert (start + (i + 1) * size) * b == (start + i * size) * b + size * b;
    CopiesBefore(start, size, i + 1, j, b);
  }

  lemma DataInside(a: nat, k: nat, s: nat, b: nat)
    ensures a * b <= (a + k * s) * b
  {
  }

  lemma FatBeforeData(g: Geometry, i: nat, c: nat)
    requires g.WellFormed() && i < g.numFats && c < g.Total()
    ensures g.FatOffset(i, c) + 4 <= g.dataStart * g.bytesPerSec <= g.DeviceBytes()
  {
    CopyEnds(g.fatStart, g.fatSize, g.bytesPerSec, i, g.numFats, c, g.Total());
    assert g.dataStart == g.fatStart + g.numFats * g.fatSize;
    DataInside(g.dataStart, g.clusters, g.secPerClus, g.bytesPerSec);
  }

  lemma Spread(a: nat, k: nat, s: nat, b: nat)
    ensures (a + k * s) * b == a * b + k * (b * s)
  {
  }

  /** Stride `n` places item `i` wholly before any later item `j`. */
  lemma NextCluster(i: nat, j: nat, n: nat)
    requires i < j
    ensures 0 <= i * n && i * n + n <= j * n
  {
    MulMono(i + 1, j, n);
  }

  lemma ClusterPlace(g: Geometry, c: nat)
    requires g.WellFormed() && FIRST <= c < g.Total()
    ensures g.ClusterOffset(c) == g.dataStart * g.bytesPerSec + (c - FIRST) * g.clusterSize
    ensures g.dataStart * g.bytesPerSec <= g.ClusterOffset(c)
    ensures g.ClusterOffset(c) + g.clusterSize <= g.DeviceBytes()
  {
    Spread(g.dataStart, c - FIRST, g.secPerClus, g.bytesPerSec);
    Spread(g.dataStart, g.clusters, g.secPerClus, g.bytesPerSec);
    NextCluster(c - FIRST, g.clusters, g.clusterSize);
  }

  lemma ClustersApart(g: Geometry, c: nat, d: nat)
    requires g.WellFormed() && FIRST <= c < d < g.Total()
    ensures g.ClusterOffset(c) + g.clusterSize <= g.ClusterOffset(d)
  {
    ClusterPlace(g, c);
    ClusterPlace(g, d);
    NextCluster(c - FIRST, d - FIRST, g.clusterSize);
  }
}
