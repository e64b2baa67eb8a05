/** The volume as bytes: reading and writing table entries in all copies, and reading and writing clusters. */
module FatVolume {
  import opened Bytes
  import opened FatLayout
  import M = CacheModel
  import B = BufferCache

  /** The 32-bit word stored for cluster `c` in table copy `copy`. */
  function RawEntry(g: Geometry, disk: seq<byte>, copy: nat, c: nat): (v: nat)
    requires g.Fits(disk) && copy < g.numFats && c < g.Total()
    ensures v < TWO32
  {
    FatBeforeData(g, copy, c);
    FromLe32(disk[g.FatOffset(copy, c)..g.FatOffset(copy, c) + 4])
  }

  /** The allocation table as the driver sees it: 28-bit entries of the first copy. */
  function FatOf(g: Geometry, disk: seq<byte>): (fat: seq<nat>)
    requires g.Fits(disk)
    ensures |fat| == g.Total()
  {
    seq(g.Total(), c requires 0 <= c < g.Total() => RawEntry(g, disk, 0, c) % TWO28)
  }

  /** The bytes of every data cluster, indexed by cluster number. */
  function DataOf(g: Geometry, disk: seq<byte>): (data: seq<seq<byte>>)
    requires g.Fits(disk)
    ensures |data| == g.Total()
    ensures forall c | FIRST <= c < g.Total() :: |data[c]| == g.clusterSize
  {
    seq(g.Total(), c requires 0 <= c < g.Total() => if c < FIRST then [] else ClusterBytes(g, disk, c))
  }

  function ClusterBytes(g: Geometry, disk: seq<byte>, c: nat): (r: seq<byte>)
    requires g.Fits(disk) && FIRST <= c < g.Total()
    ensures |r| == g.clusterSize
  {
    ClusterPlace(g, c);
    disk[g.ClusterOffset(c)..g.ClusterOffset(c) + g.clusterSize]
  }

  /** All copies agree in their low 28 bits. */
  ghost predicate Mirrored(g: Geometry, disk: seq<byte>)
    requires g.Fits(disk)
  {
    forall k, c | 0 <= k < g.numFats && 0 <= c < g.Total() ::
      RawEntry(g, disk, k, c) % TWO28 == RawEntry(g, disk, 0, c) % TWO28
  }

  /** `value` in the low 28 bits, the reserved top four bits of `existing` kept. */
  function Mix(existing: nat, value: nat): (v: nat)
    requires existing < TWO32
    ensures v < TWO32 && v % TWO28 == value % TWO28 && v / TWO28 == existing / TWO28
  {
    existing / TWO28 * TWO28 + value % TWO28
  }

  /** A table entry is four bytes, least significant first, at four times the cluster number in its copy. */
  lemma EntryLayout(g: Geometry, disk: seq<byte>, k: nat, c: nat, at: nat)
    requires g.Fits(disk) && k < g.numFats && c < g.Total()
    requires at == (g.fatStart + k * g.fatSize) * g.bytesPerSec + 4 * c
    ensures at + 4 <= |disk|
    ensures RawEntry(g, disk, k, c) == disk[at] as int + 0x100 * disk[at + 1] as int + 0x1_0000 * disk[at + 2] as int
            + 0x100_0000 * disk[at + 3] as int
  {
    FatBeforeData(g, k, c);
    assert g.FatOffset(k, c) == at;
    var w := disk[at..at + 4];
    assert w[0] == disk[at] && w[1] == disk[at + 1] && w[2] == disk[at + 2] && w[3] == disk[at + 3];
  }

  /** Cluster 2 is the first of the data area, and the others follow in order. */
  lemma ClusterLayout(g: Geometry, disk: seq<byte>, c: nat, at: nat)
    requires g.Fits(disk) && 2 <= c < g.Total()
    requires at == (g.fatStart + g.numFats * g.fatSize) * g.bytesPerSec + (c - 2) * g.clusterSize
    ensures at + g.clusterSize <= |disk| && DataOf(g, disk)[c] == disk[at..at + g.clusterSize]
  {
    ClusterPlace(g, c);
  }

  lemma SliceApart(s: seq<byte>, at: nat, w: seq<byte>, o: nat, n: nat)
    requires at + |w| <= |s| && o + n <= |s|
    requires o + n <= at || at + |w| <= o
    ensures Overlay(s, at, w)[o..o + n] == s[o..o + n]
  {
  }

  /** Storing one word in one copy changes that slot of that copy and nothing else. */
  lemma PutEntry(g: Geometry, disk: seq<byte>, k: nat, c: nat, w: nat)
    requires g.Fits(disk) && k < g.numFats && c < g.Total() && w < TWO32
    requires g.FatOffset(k, c) + 4 <= |disk|
    ensures var disk' := Overlay(disk, g.FatOffset(k, c), Le32(w));
            && (forall j, d | 0 <= j < g.numFats && 0 <= d < g.Total() ::
                  RawEntry(g, disk', j, d) == if j == k && d == c then w else RawEntry(g, disk, j, d))
            && DataOf(g, disk') == DataOf(g, disk)
  {
    var at := g.FatOffset(k, c);
    var disk' := Overlay(disk, at, Le32(w));
    forall j, d | 0 <= j < g.numFats && 0 <= d < g.Total()
      ensures RawEntry(g, disk', j, d) == if j == k && d == c then w else RawEntry(g, disk, j, d)
    {
      FatBeforeData(g, j, d);
      if j == k && d == c {
        assert disk'[at..at + 4] == Le32(w);
        Le32RoundTrip(w);
      } else {
        FatSlotsApart(g, k, c, j, d);
        SliceApart(disk, at, Le32(w), g.FatOffset(j, d), 4);
      }
    }
    forall d | FIRST <= d < g.Total()
      ensures ClusterBytes(g, disk', d) == ClusterBytes(g, disk, d)
    {
      FatBeforeData(g, k, c);
      ClusterPlace(g, d);
      SliceApart(disk, at, Le32(w), g.ClusterOffset(d), g.clusterSize);
    }
  }

  /** Storing one cluster changes no table entry and no other cluster. */
  lemma PutCluster(g: Geometry, disk: seq<byte>, c: nat, buf: seq<byte>)
    requires g.Fits(disk) && FIRST <= c < g.Total() && |buf| == g.clusterSize
    requires g.ClusterOffset(c) + |buf| <= |disk|
    ensures var disk' := Overlay(disk, g.ClusterOffset(c), buf);
            && (forall j, d | 0 <= j < g.numFats && 0 <= d < g.Total() ::
                  RawEntry(g, disk', j, d) == RawEntry(g, disk, j, d))
            && FatOf(g, disk') == FatOf(g, disk) && (Mirrored(g, disk) ==> Mirrored(g, disk'))
            && DataOf(g, disk') == DataOf(g, disk)[c := buf]
  {
    var at := g.ClusterOffset(c);
    var disk' := Overlay(disk, at, buf);
    ClusterPlace(g, c);
    forall j, d | 0 <= j < g.numFats && 0 <= d < g.Total()
      ensures RawEntry(g, disk', j, d) == RawEntry(g, disk, j, d)
    {
      FatBeforeData(g, j, d);
      SliceApart(disk, at, buf, g.FatOffset(j, d), 4);
    }
    forall d | FIRST <= d < g.Total()
      ensures ClusterBytes(g, disk', d) == if d == c then buf else ClusterBytes(g, disk, d)
    {
      ClusterPlace(g, d);
      if d == c {
        assert disk'[at..at + |buf|] == buf;
      } else {
        if d < c { ClustersApart(g, d, c); } else { ClustersApart(g, c, d); }
        SliceApart(disk, at, buf, g.ClusterOffset(d), g.clusterSize);
      }
    }
  }

  /** The entries of cluster `c` in the first `copies` copies of the table hold `value` in their low 28 bits and their
      own reserved bits; no other entry and no cluster changed. */
  ghost predicate EntryStored(g: Geometry, was: seq<byte>, now: seq<byte>, c: nat, value: nat, copies: nat) {
    && g.Fits(was) && g.Fits(now) && copies <= g.numFats && DataOf(g, now) == DataOf(g, was)
    && forall k, d | 0 <= k < g.numFats && 0 <= d < g.Total() ::
         RawEntry(g, now, k, d) ==
         if k < copies && d == c then Mix(RawEntry(g, was, k, d), value) else RawEntry(g, was, k, d)
  }

  /** One more copy. */
  lemma StoreEntry(g: Geometry, was: seq<byte>, now: seq<byte>, c: nat, value: nat, copy: nat)
    requires EntryStored(g, was, now, c, value, copy) && copy < g.numFats && c < g.Total()
    ensures g.FatOffset(copy, c) + 4 <= |now|
    ensures var at := g.FatOffset(copy, c);
            EntryStored(g, was, Overlay(now, at, Le32(Mix(FromLe32(now[at..at + 4]), value))), c, value, copy + 1)
  {
    FatBeforeData(g, copy, c);
    var at := g.FatOffset(copy, c);
    PutEntry(g, now, copy, c, Mix(FromLe32(now[at..at + 4]), value));
  }

  /** With all copies done the table has the new value at one place, and the copies still agree. */
  lemma EntryInAll(g: Geometry, was: seq<byte>, now: seq<byte>, c: nat, value: nat)
    requires EntryStored(g, was, now, c, value, g.numFats) && Mirrored(g, was) && c < g.Total()
    ensures g.Fits(now) && Mirrored(g, now) && DataOf(g, now) == DataOf(g, was)
    ensures FatOf(g, now) == FatOf(g, was)[c := value % TWO28]
  {
  }

  lemma EntryStart(g: Geometry, disk: seq<byte>, c: nat, value: nat)
    requires g.Fits(disk)
    ensures EntryStored(g, disk, disk, c, value, 0)
  {
  }

  /** A marker for `Volume.Ready`: the byte-level facts under it are used only where the marker is named, so that
      proofs about chains and files do not see the layout arithmetic. */
  ghost predicate Sealed(k: int) { true }

  /** The mounted device, behind the block cache. `disk` is the flat byte array that the block layer presents; `fat` and
      `data` are the table and the clusters it encodes. */
  class Volume {
    const geo: Geometry
    const cache: B.Cache
    const dev: int
    ghost var disk: seq<byte>
    ghost var fat: seq<nat>
    ghost var data: seq<seq<byte>>

    constructor (g: Geometry, c: B.Cache, d: int)
      requires c.Valid() && c.Idle() && M.Formatted(c.view) && d in c.view
      requires g.Fits(M.FlatOf(c.view[d])) && Mirrored(g, M.FlatOf(c.view[d]))
      ensures geo == g && cache == c && dev == d && disk == M.FlatOf(c.view[d]) && Ready()
      ensures fat == FatOf(g, M.FlatOf(c.view[d])) && data == DataOf(g, M.FlatOf(c.view[d]))
    {
      geo, cache, dev := g, c, d;
      disk := M.FlatOf(c.view[d]);
      fat := FatOf(g, M.FlatOf(c.view[d]));
      data := DataOf(g, M.FlatOf(c.view[d]));
    }

    ghost predicate Encoded()
      reads this
    {
      geo.Fits(disk) && Mirrored(geo, disk) && fat == FatOf(geo, disk) && data == DataOf(geo, disk)
    }

    /** The block cache shows `disk`, and nobody else uses it just now. */
    ghost predicate Presented()
      reads this`disk, cache
    {
      && cache.Valid() && cache.Idle() && M.Formatted(cache.view) && dev in cache.view
      && M.FlatOf(cache.view[dev]) == disk
    }

    /** The device itself, without the cache, holds `disk`. */
    ghost predicate OnDevice()
      reads this`disk, cache
    {
      M.Formatted(cache.disks) && dev in cache.disks && M.FlatOf(cache.disks[dev]) == disk
    }

    ghost predicate Ready()
      reads this, cache
    {
      && 0 < geo.clusterSize && geo.clusterSize % 32 == 0
      && |fat| == geo.Total() == |data| && geo.Total() <= BAD
      && (forall c | FIRST <= c < geo.Total() :: |data[c]| == geo.clusterSize)
      && (forall k :: Sealed(k) ==> Encoded() && Presented())
    }

    lemma Shape()
      requires Ready()
      ensures 0 < geo.clusterSize && |fat| == geo.Total() == |data| && geo.Total() <= BAD
    {
    }

    method ReadBytes(at: nat, n: nat) returns (b: seq<byte>)
      requires Presented() && 0 < n && at + n <= |disk|
      modifies cache
      ensures Presented() && b == disk[at..at + n]
    {
      hide M.FlatOf, B.Cache.Inv, B.Cache.Idle;
      var k;
      k, b := cache.BlockRead(dev, at, n);
    }

    method WriteBytes(at: nat, w: seq<byte>)
      requires Presented() && w != [] && at + |w| <= |disk|
      modifies cache, this`disk
      ensures Presented() && disk == Overlay(old(disk), at, w)
    {
      hide M.FlatOf, B.Cache.Inv, B.Cache.Idle;
      var n := cache.BlockWrite(dev, at, w);
      assert w[..n] == w;
      disk := Overlay(disk, at, w);
    }

    method FatRead(c: nat) returns (v: nat)
      requires Ready() && c < geo.Total()
      modifies cache
      ensures Ready() && v == fat[c] && v < TWO28
    {
      hide Presented;
      assert Sealed(0);
      FatBeforeData(geo, 0, c);
      var b := ReadBytes(geo.FatOffset(0, c), 4);
      v := FromLe32(b) % TWO28;
    }

    /** Stores an entry in every copy of the table. */
    method FatWrite(c: nat, value: nat)
      requires Ready() && c < geo.Total()
      modifies this, cache
      ensures Ready()
      ensures fat == old(fat)[c := value % TWO28]
      ensures data == old(data)
    {
      hide Presented, EntryStored, Mirrored, FatOf, DataOf, Overlay, Le32, FromLe32, Mix, Geometry.WellFormed,
           Geometry.FatOffset, Geometry.DeviceBytes;
      assert Sealed(0);
      ghost var was := disk;
      EntryStart(geo, was, c, value);
      var copy := 0;
      while copy < geo.numFats
        invariant 0 <= copy <= geo.numFats && Presented() && EntryStored(geo, was, disk, c, value, copy)
        invariant fat == old(fat) && data == old(data)
      {
        StoreEntry(geo, was, disk, c, value, copy);
        var at := geo.FatOffset(copy, c);
        var b := ReadBytes(at, 4);
        WriteBytes(at, Le32(Mix(FromLe32(b), value)));
        copy := copy + 1;
      }
      EntryInAll(geo, was, disk, c, value);
      fat := fat[c := value % TWO28];
    }

    /** Cluster numbers below 2 are refused. */
    method ReadCluster(c: nat) returns (ok: bool, buf: seq<byte>)
      requires Ready() && c < geo.Total()
      modifies cache
      ensures Ready() && ok == (FIRST <= c)
      ensures ok ==> buf == data[c]
    {
      hide Presented;
      if c < FIRST {
        return false, [];
      }
      assert Sealed(0);
      ClusterPlace(geo, c);
      buf := ReadBytes(geo.ClusterOffset(c), geo.clusterSize);
      return true, buf;
    }

    method WriteCluster(c: nat, buf: seq<byte>) returns (ok: bool)
      requires Ready() && c < geo.Total() && |buf| == geo.clusterSize
      modifies this, cache
      ensures Ready() && ok == (FIRST <= c)
      ensures fat == old(fat)
      ensures data == if ok then old(data)[c := buf] else old(data)
    {
      hide Presented, Mirrored, FatOf, DataOf, Overlay, Geometry.WellFormed, Geometry.ClusterOffset,
           Geometry.DeviceBytes;
      if c < FIRST {
        return false;
      }
      assert Sealed(0);
      ClusterPlace(geo, c);
      PutCluster(geo, disk, c, buf);
      WriteBytes(geo.ClusterOffset(c), buf);
      data := data[c := buf];
      return true;
    }

    /** Writes back what the cache holds for this device. */
    method Sync()
      requires Ready()
      modifies cache
      ensures Ready() && OnDevice()
    {
      hide M.FlatOf, B.Cache.Inv;
      assert Sealed(0);
      cache.SyncAll(false, dev);
      SyncedDevice();
    }

    lemma SyncedDevice()
      requires cache.Valid() && dev in cache.view && (dev in cache.disks ==> cache.disks[dev] == cache.view[dev])
      requires M.Formatted(cache.view) && M.FlatOf(cache.view[dev]) == disk
      ensures OnDevice()
    {
    }

    /** What the device holds encodes the table and the clusters, once it holds everything. */
    lemma DeviceEncodes()
      requires Ready() && OnDevice()
      ensures var bytes := M.FlatOf(cache.disks[dev]);
              geo.Fits(bytes) && Mirrored(geo, bytes) && FatOf(geo, bytes) == fat && DataOf(geo, bytes) == data
    {
      hide M.FlatOf, Presented;
      assert Sealed(0);
    }
  }
}
