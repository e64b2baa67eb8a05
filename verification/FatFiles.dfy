/** File input and output on a mounted FAT32 volume. */
module FatFiles {
  import opened Bytes
  import opened FatLayout
  import opened FatVolume
  import opened FatChains
  import opened FatMount
  import opened FatContent
  import opened FatInvariant

  class FileSystem {
    const mnt: Mount
    var vnodes: map<nat, Vnode>
    /** For each vnode its chain and the chain's bytes, and the vnode of the directory that lists it. */
    ghost var chains: map<nat, seq<nat>>
    ghost var bytes: map<nat, seq<byte>>
    ghost var parent: map<nat, nat>

    constructor (m: Mount, vs: map<nat, Vnode>, ghost cs: map<nat, seq<nat>>, ghost bs: map<nat, seq<byte>>,
                 ghost ps: map<nat, nat>)
      requires m.Valid() && m.vol.geo.clusters > 0 && Consistent(m.vol.fat, m.vol.data, vs, cs, bs, ps)
      ensures mnt == m && vnodes == vs && chains == cs && bytes == bs && parent == ps && Valid()
    {
      mnt := m;
      vnodes := vs;
      chains := cs;
      bytes := bs;
      parent := ps;
    }

    ghost predicate Valid()
      reads this, mnt, mnt.vol, mnt.vol.cache
    {
      && mnt.Valid() && mnt.vol.geo.clusters > 0
      && Consistent(mnt.vol.fat, mnt.vol.data, vnodes, chains, bytes, parent)
    }

    /** The file: the chain's bytes up to the recorded size. */
    ghost function Content(id: nat): seq<byte>
      requires Valid() && id in vnodes
      reads this, mnt, mnt.vol, mnt.vol.cache
    {
      FactsOf(mnt.vol.fat, mnt.vol.data, vnodes, chains, bytes, parent, id);
      bytes[id][..vnodes[id].size]
    }

    method ReadAt(id: nat, nbyte: nat, offset: nat) returns (buf: seq<byte>)
      requires Valid() && id in vnodes
      modifies mnt.vol.cache
      ensures Valid() && buf == ReadSpec(Content(id), offset, nbyte)
    {
      hide Consistent, Listed, ReadSpec;
      FactsOf(mnt.vol.fat, mnt.vol.data, vnodes, chains, bytes, parent, id);
      var v := vnodes[id];
      ReadPrefix(bytes[id], v.size, offset, nbyte);
      if offset >= v.size {
        return [];
      }
      var n := if offset + nbyte > v.size then v.size - offset else nbyte;
      if n == 0 {
        return [];
      }
      var cs := mnt.vol.geo.clusterSize;
      ghost var ch := chains[id];
      Locate(mnt.vol.data, ch, cs, offset);
      var cur := mnt.Walk(v.start, ClusterIndex(offset, cs), ch);
      buf := CopyOut(mnt.vol, cur, InCluster(offset, cs), n, ch, ClusterIndex(offset, cs),
          offset - InCluster(offset, cs));
    }

    /** Gives a file without clusters its first one, zeroed. */
    method FirstCluster(id: nat) returns (c: nat)
      requires Valid() && id in vnodes && vnodes[id].start < FIRST
      modifies this, mnt, mnt.vol, mnt.vol.cache
      ensures Valid() && (old(mnt.Counted()) ==> mnt.Counted())
      ensures parent == old(parent) && (c == 0 <==> Full(old(mnt.vol.fat)))
      ensures c == 0 ==> vnodes == old(vnodes) && bytes == old(bytes) && mnt.vol.fat == old(mnt.vol.fat)
      ensures c != 0 ==> c >= FIRST && vnodes == old(vnodes)[id := old(vnodes)[id].(start := c)]
      ensures c != 0 ==> id in chains && chains[id] == [c]
      ensures c != 0 ==> bytes == old(bytes)[id := Zeros(mnt.vol.geo.clusterSize)]
      ensures Lengthened(old(mnt.vol.fat), old(chains), mnt.vol.fat, chains, id)
    {
      hide Consistent, Lengthened;
      ghost var fat, data := mnt.vol.fat, mnt.vol.data;
      SameChains(fat, data, vnodes, chains, bytes, parent, id);
      c := mnt.AllocCluster();
      if c == 0 {
        return;
      }
      var z := Zeros(mnt.vol.geo.clusterSize);
      FirstStep(fat, data, vnodes, chains, bytes, parent, id, c, z);
      FirstLengthens(fat, data, vnodes, chains, bytes, parent, id, c);
      vnodes := vnodes[id := vnodes[id].(start := c)];
      chains := chains[id := [c]];
      bytes := bytes[id := z];
      var _ := mnt.vol.WriteCluster(c, z);
    }

    /** Appends a zeroed cluster behind `last`. */
    method NextCluster(id: nat, last: nat) returns (c: nat)
      requires Valid() && id in vnodes && chains[id] != [] && last == chains[id][|chains[id]| - 1]
      modifies this`chains, this`bytes, mnt, mnt.vol, mnt.vol.cache
      ensures Valid() && (old(mnt.Counted()) ==> mnt.Counted())
      ensures c == 0 <==> Full(old(mnt.vol.fat))
      ensures c == 0 ==> chains == old(chains) && bytes == old(bytes) && mnt.vol.fat == old(mnt.vol.fat)
      ensures c != 0 ==> chains == old(chains)[id := old(chains)[id] + [c]]
      ensures c != 0 ==> bytes == old(bytes)[id := old(bytes)[id] + Zeros(mnt.vol.geo.clusterSize)]
      ensures Lengthened(old(mnt.vol.fat), old(chains), mnt.vol.fat, chains, id)
    {
      hide Consistent, Lengthened, IsChain, Holds, Attached, Listed, FreeTotal;
      ghost var fat, data := mnt.vol.fat, mnt.vol.data;
      FactsOf(fat, data, vnodes, chains, bytes, parent, id);
      LastInTable(fat, chains[id]);
      SameChains(fat, data, vnodes, chains, bytes, parent, id);
      EndInUse(fat, chains[id]);
      c := mnt.ExtendChain(last);
      if c == 0 {
        return;
      }
      var z := Zeros(mnt.vol.geo.clusterSize);
      NextStep(fat, data, vnodes, chains, bytes, parent, id, c, z);
      NextLengthens(fat, data, vnodes, chains, bytes, parent, id, c);
      chains := chains[id := chains[id] + [c]];
      bytes := bytes[id := bytes[id] + z];
      var _ := mnt.vol.WriteCluster(c, z);
    }

    /** Lengthens the chain to `needed` clusters, or as far as free clusters reach. */
    method Grow(id: nat, needed: nat) returns (have: nat)
      requires Valid() && id in vnodes && chains[id] != []
      modifies this`chains, this`bytes, mnt, mnt.vol, mnt.vol.cache
      ensures Valid() && (old(mnt.Counted()) ==> mnt.Counted())
      ensures id in chains && have == |chains[id]|
      ensures have < needed ==> Full(mnt.vol.fat)
      ensures have <= Max(|old(chains)[id]|, needed)
      ensures Grown(old(bytes), bytes, id)
      ensures Lengthened(old(mnt.vol.fat), old(chains), mnt.vol.fat, chains, id)
    {
      hide Consistent, Mount.Counted, Lengthened;
      FactsOf(mnt.vol.fat, mnt.vol.data, vnodes, chains, bytes, parent, id);
      SameChains(mnt.vol.fat, mnt.vol.data, vnodes, chains, bytes, parent, id);
      have := mnt.ChainLength(vnodes[id].start, chains[id]);
      ghost var b0, grown: nat := bytes[id], 0;
      assert b0 + Zeros(0) == b0;
      if needed > have {
        var last := mnt.LastCluster(vnodes[id].start, chains[id]);
        while have < needed
          invariant Valid() && (old(mnt.Counted()) ==> mnt.Counted())
          invariant id in chains && id in bytes && chains == old(chains)[id := chains[id]]
          invariant chains[id] != [] && have == |chains[id]| <= needed && last == chains[id][have - 1]
          invariant bytes == old(bytes)[id := b0 + Zeros(grown)]
          invariant Lengthened(old(mnt.vol.fat), old(chains), mnt.vol.fat, chains, id)
        {
          ghost var fat, cs := mnt.vol.fat, chains;
          var added := NextCluster(id, last);
          LengthenedTwice(old(mnt.vol.fat), old(chains), fat, cs, mnt.vol.fat, chains, id);
          if added == 0 {
            break;
          }
          assert b0 + Zeros(grown) + Zeros(mnt.vol.geo.clusterSize) == b0 + Zeros(grown + mnt.vol.geo.clusterSize);
          grown := grown + mnt.vol.geo.clusterSize;
          last := added;
          have := have + 1;
        }
      }
    }

    /** Patches the vnode's 32-byte entry in its directory. */
    method UpdateDirent(id: nat) returns (ok: bool)
      requires Valid() && id in vnodes
      modifies this`bytes, mnt.vol, mnt.vol.cache
      ensures Valid() && mnt.vol.fat == old(mnt.vol.fat) && ok == (vnodes[id].dirCluster >= FIRST)
      ensures !ok ==> bytes == old(bytes)
      ensures ok ==> var p, v := parent[id], vnodes[id];
                     bytes == old(bytes)[p := PutDirent(old(bytes)[p], v.dirOffset, v.start, v.size)]
    {
      hide Consistent, IsChain, PutDirent;
      var v := vnodes[id];
      if v.dirCluster < FIRST {
        return false;
      }
      var cs := mnt.vol.geo.clusterSize;
      DirentStep(mnt.vol.fat, mnt.vol.data, vnodes, chains, bytes, parent, id, cs);
      ghost var p := parent[id];
      var c := mnt.Walk(v.dirCluster, ClusterIndex(v.dirOffset, cs), chains[p]);
      var _, cluster := mnt.vol.ReadCluster(c);
      bytes := bytes[p := PutDirent(bytes[p], v.dirOffset, v.start, v.size)];
      var _ := mnt.vol.WriteCluster(c, PutDirent(cluster, InCluster(v.dirOffset, cs), v.start, v.size));
      return true;
    }

    /** Writes the cache back; the device then holds everything. */
    method Flush()
      requires Valid()
      modifies mnt.vol.cache
      ensures Valid() && mnt.vol.OnDevice()
    {
      hide Consistent, Volume.OnDevice;
      mnt.vol.Sync();
    }

    /** Writes `src` at `offset` into a regular file, growing it with zeroed clusters; when the volume fills up
        part-way the write is cut short at the last cluster that could be had. The file is then as the flat write says
        exactly when the accepted bytes end below 4 GiB. */
    method WriteAt(id: nat, src: seq<byte>, offset: nat) returns (n: int)
      requires Valid() && id in vnodes && InReach(offset + |src|, mnt.vol.geo.clusterSize)
      modifies this, mnt, mnt.vol, mnt.vol.cache
      ensures Valid() && (old(mnt.Counted()) ==> mnt.Counted()) && parent == old(parent)
      ensures WriteOutcome(old(vnodes), old(bytes), vnodes, bytes, parent, mnt.vol.fat, id, src, offset, n)
      ensures id in old(bytes) && id in vnodes
      ensures n > 0 && TailZero(old(bytes)[id], old(vnodes)[id].size) ==>
                (Content(id) == WriteSpec(old(Content(id)), offset, src[..n]) <==> offset + n < TWO32)
      ensures src != [] && !old(vnodes)[id].isDir && !Full(old(mnt.vol.fat)) ==> vnodes[id].start >= FIRST
      ensures Lengthened(old(mnt.vol.fat), old(chains), mnt.vol.fat, chains, id)
      ensures n > 0 ==> mnt.vol.OnDevice()
    {
      hide Consistent, Mount.Counted, Mount.Valid, Volume.OnDevice, IsChain, Holds, PutDirent, WriteOutcome, Grown,
           Stored, Lengthened;
      SameChains(mnt.vol.fat, mnt.vol.data, vnodes, chains, bytes, parent, id);
      FactsOf(mnt.vol.fat, mnt.vol.data, vnodes, chains, bytes, parent, id);
      GrownBy(bytes, id, 0);
      if vnodes[id].isDir {
        Refused(vnodes, bytes, vnodes, bytes, parent, mnt.vol.fat, id, src, offset, -1);
        return -1;
      }
      if |src| == 0 {
        Refused(vnodes, bytes, vnodes, bytes, parent, mnt.vol.fat, id, src, offset, 0);
        return 0;
      }
      n := Reserve(id, |src|, offset);
      if n == -1 {
        Refused(old(vnodes), old(bytes), vnodes, bytes, parent, mnt.vol.fat, id, src, offset, -1);
        return;
      }
      ghost var vs, bs := vnodes, bytes;
      Store(id, src[..n], offset);
      Accepted(old(vnodes), old(bytes), vs, bs, vnodes, bytes, parent, mnt.vol.fat, id, src, offset, n);
      if TailZero(old(bytes)[id], old(vnodes)[id].size) {
        WriteIsFlatIff(old(vnodes), old(bytes), vnodes, bytes, parent, mnt.vol.fat, id, src, offset, n);
      }
      Flush();
    }

    /** The allocating part of a write: makes room for `count` bytes at `offset`, or for as many as fit. */
    method Reserve(id: nat, count: nat, offset: nat) returns (n: int)
      requires Valid() && id in vnodes && !vnodes[id].isDir && count > 0
      requires InReach(offset + count, mnt.vol.geo.clusterSize)
      modifies this, mnt, mnt.vol, mnt.vol.cache
      ensures Valid() && (old(mnt.Counted()) ==> mnt.Counted())
      ensures parent == old(parent) && id in vnodes && id in bytes
      ensures vnodes == old(vnodes)[id := old(vnodes)[id].(start := vnodes[id].start)]
      ensures old(vnodes)[id].start >= FIRST ==> vnodes[id].start == old(vnodes)[id].start
      ensures Grown(old(bytes), bytes, id)
      ensures n == -1 || 0 < n <= count
      ensures n == -1 ==> Full(mnt.vol.fat) && |bytes[id]| <= offset
      ensures n > 0 ==> offset + n <= |bytes[id]| && vnodes[id].start >= FIRST
      ensures 0 < n < count ==> Full(mnt.vol.fat) && offset + n == |bytes[id]|
      ensures !Full(old(mnt.vol.fat)) ==> vnodes[id].start >= FIRST
      ensures Lengthened(old(mnt.vol.fat), old(chains), mnt.vol.fat, chains, id)
    {
      hide Consistent, Mount.Counted, Needed, Grown, Lengthened;
      var cs := mnt.vol.geo.clusterSize;
      var c := Anchor(id);
      if c == 0 {
        return -1;
      }
      ghost var b1, fat, ch := bytes, mnt.vol.fat, chains;
      var needed := Needed(offset + count, cs) % TWO32;
      NeededIff(offset + count, cs, TWO32 - 1);
      var have := Grow(id, needed);
      GrownTwice(old(bytes), b1, bytes, id);
      LengthenedTwice(old(mnt.vol.fat), old(chains), fat, ch, mnt.vol.fat, chains, id);
      LengthOf(mnt.vol.fat, mnt.vol.data, vnodes, chains, bytes, parent, id, cs);
      NeededIff(offset + count, cs, have);
      if have < needed {
        var maxEnd := have * cs;
        return if maxEnd <= offset then -1 else maxEnd - offset;
      }
      return count;
    }

    /** The first cluster of the file, allocated if there is none; 0 if that fails. */
    method Anchor(id: nat) returns (c: nat)
      requires Valid() && id in vnodes
      modifies this, mnt, mnt.vol, mnt.vol.cache
      ensures Valid() && (old(mnt.Counted()) ==> mnt.Counted())
      ensures parent == old(parent) && id in vnodes && id in chains && id in bytes
      ensures vnodes == old(vnodes)[id := old(vnodes)[id].(start := vnodes[id].start)]
      ensures old(vnodes)[id].start >= FIRST ==> vnodes[id].start == old(vnodes)[id].start
      ensures Grown(old(bytes), bytes, id)
      ensures c == 0 ==> Full(mnt.vol.fat) && bytes[id] == []
      ensures c != 0 ==> chains[id] != [] && vnodes[id].start >= FIRST
      ensures c == 0 ==> Full(old(mnt.vol.fat))
      ensures Lengthened(old(mnt.vol.fat), old(chains), mnt.vol.fat, chains, id)
    {
      hide Consistent, Mount.Counted, IsChain, Listed, Grown, Lengthened;
      FactsOf(mnt.vol.fat, mnt.vol.data, vnodes, chains, bytes, parent, id);
      SameChains(mnt.vol.fat, mnt.vol.data, vnodes, chains, bytes, parent, id);
      GrownBy(bytes, id, 0);
      c := vnodes[id].start;
      if c < FIRST {
        GrownBy(bytes, id, mnt.vol.geo.clusterSize);
        assert bytes[id] + Zeros(mnt.vol.geo.clusterSize) == Zeros(mnt.vol.geo.clusterSize);
        c := FirstCluster(id);
        FactsOf(mnt.vol.fat, mnt.vol.data, vnodes, chains, bytes, parent, id);
      }
    }

    /** The part of a write for which the chain is already long enough. */
    method Store(id: nat, w: seq<byte>, offset: nat)
      requires Valid() && id in vnodes && !vnodes[id].isDir && |w| > 0
      requires offset + |w| <= |bytes[id]|
      modifies this`vnodes, this`bytes, mnt.vol, mnt.vol.cache
      ensures Valid() && mnt.vol.fat == old(mnt.vol.fat)
      ensures old(mnt.Counted()) ==> mnt.Counted()
      ensures Stored(old(vnodes), old(bytes), vnodes, bytes, parent, id, w, offset)
      ensures id in vnodes && vnodes[id].start == old(vnodes)[id].start
    {
      hide Consistent, Stored, PutDirent, IsChain;
      FactsOf(mnt.vol.fat, mnt.vol.data, vnodes, chains, bytes, parent, id);
      Fill(id, w, offset);
      FactsOf(mnt.vol.fat, mnt.vol.data, vnodes, chains, bytes, parent, id);
      StartBound(mnt.vol.fat, mnt.vol.data, vnodes, chains, bytes, parent, id);
      var _ := UpdateDirent(id);
      StoredOf(old(vnodes), old(bytes), vnodes, bytes, parent, id, w, offset);
    }

    /** Copies `w` into the chain and stores the new end in the 32-bit size if the file now ends later. */
    method Fill(id: nat, w: seq<byte>, offset: nat)
      requires Valid() && id in vnodes && !vnodes[id].isDir && |w| > 0
      requires offset + |w| <= |bytes[id]|
      modifies this`vnodes, this`bytes, mnt.vol, mnt.vol.cache
      ensures Valid() && mnt.vol.fat == old(mnt.vol.fat)
      ensures vnodes == old(vnodes)[id := old(vnodes)[id].(size := SizeAfter(old(vnodes)[id].size, offset + |w|))]
      ensures bytes == old(bytes)[id := Overlay(old(bytes)[id], offset, w)]
    {
      hide Consistent, Starts, SizeAfter, ClusterIndex, InCluster, SlotsInUse, Listed, Flat, Overlay, IsChain;
      var v := vnodes[id];
      var cs := mnt.vol.geo.clusterSize;
      FactsOf(mnt.vol.fat, mnt.vol.data, vnodes, chains, bytes, parent, id);
      FileListsNothing(mnt.vol.fat, mnt.vol.data, vnodes, chains, bytes, parent, id);
      ghost var ch, data := chains[id], mnt.vol.data;
      Locate(data, ch, cs, offset);
      var cur := mnt.Walk(v.start, ClusterIndex(offset, cs), ch);
      CopyIn(mnt.vol, cur, InCluster(offset, cs), w, ch, ClusterIndex(offset, cs), offset - InCluster(offset, cs));
      var size := SizeAfter(v.size, offset + |w|);
      PatchStep(mnt.vol.fat, data, vnodes, chains, bytes, parent, id, mnt.vol.data, Overlay(bytes[id], offset, w),
          size);
      vnodes := vnodes[id := v.(size := size)];
      bytes := bytes[id := Overlay(bytes[id], offset, w)];
    }

    /** The first free slot of a directory, which grows by a zeroed cluster when all slots are taken. */
    method FindFreeDirent(dir: nat) returns (ok: bool, at: nat)
      requires Valid() && dir in vnodes && chains[dir] != []
      modifies this`chains, this`bytes, mnt, mnt.vol, mnt.vol.cache
      ensures Valid() && (old(mnt.Counted()) ==> mnt.Counted())
      ensures Grown(old(bytes), bytes, dir) && NoneFree(bytes[dir], at) && Aligned(at)
      ensures ok ==> at + 32 <= |bytes[dir]| && FreeSlot(bytes[dir][at])
      ensures ok ==> bytes[dir][at] == 0 || bytes[dir][at] == 0xE5
      ensures forall i | 0 <= i < at && i % 32 == 0 && i < |bytes[dir]| :: bytes[dir][i] != 0 && bytes[dir][i] != 0xE5
      ensures !ok ==> at == |bytes[dir]| && bytes == old(bytes) && Full(mnt.vol.fat)
      ensures Lengthened(old(mnt.vol.fat), old(chains), mnt.vol.fat, chains, dir)
    {
      hide Consistent, Mount.Counted, NoneFree, IsChain, Listed, Grown, Lengthened;
      SameChains(mnt.vol.fat, mnt.vol.data, vnodes, chains, bytes, parent, dir);
      FactsOf(mnt.vol.fat, mnt.vol.data, vnodes, chains, bytes, parent, dir);
      GrownBy(bytes, dir, 0);
      ok, at := ScanSlots(mnt.vol, vnodes[dir].start, chains[dir]);
      NoneFreeIs(bytes[dir], at);
      if ok {
        return;
      }
      var last := mnt.LastCluster(vnodes[dir].start, chains[dir]);
      var c := NextCluster(dir, last);
      if c != 0 {
        NewSlots(old(bytes), dir, mnt.vol.geo.clusterSize);
        NoneFreeIs(bytes[dir], at);
        ok := true;
      }
    }

    /** Rewrites the directory cluster that holds slot `at`, with `w` laid over the slot. */
    method PutSlot(dir: nat, at: nat, w: seq<byte>)
      requires Valid() && dir in vnodes && at % 32 == 0 && at + 32 <= |bytes[dir]| && |w| <= 32
      requires SlotsInUse(vnodes, parent, dir, Overlay(bytes[dir], at, w))
      modifies this`bytes, mnt.vol, mnt.vol.cache
      ensures Valid() && mnt.vol.fat == old(mnt.vol.fat) && (old(mnt.Counted()) ==> mnt.Counted())
      ensures bytes == old(bytes)[dir := Overlay(old(bytes)[dir], at, w)]
    {
      hide Consistent, IsChain, SlotsInUse;
      KeysOf(mnt.vol.fat, mnt.vol.data, vnodes, chains, bytes, parent);
      var cs := mnt.vol.geo.clusterSize;
      SlotStep(mnt.vol.fat, mnt.vol.data, vnodes, chains, bytes, parent, dir, at, w, cs);
      var c := mnt.Walk(vnodes[dir].start, ClusterIndex(at, cs), chains[dir]);
      var _, cluster := mnt.vol.ReadCluster(c);
      var _ := mnt.vol.WriteCluster(c, Overlay(cluster, InCluster(at, cs), w));
      bytes := bytes[dir := Overlay(bytes[dir], at, w)];
    }

    /** Lists a new empty file under the given 8.3 name; `id` is the vnode made for it. */
    method Create(dir: nat, name: seq<byte>, ntRes: byte, id: nat) returns (ok: bool)
      requires Valid() && dir in vnodes && vnodes[dir].isDir && chains[dir] != [] && id !in vnodes
      requires |name| == 11 && !FreeSlot(name[0])
      modifies this, mnt, mnt.vol, mnt.vol.cache
      ensures Valid() && (old(mnt.Counted()) ==> mnt.Counted())
      ensures parent == if ok then old(parent)[id := dir] else old(parent)
      ensures !ok ==> vnodes == old(vnodes) && bytes == old(bytes) && Full(mnt.vol.fat)
      ensures ok ==> Created(old(vnodes), old(bytes), vnodes, bytes, parent, dir, name, ntRes, id)
      ensures ok ==> && id in vnodes && dir in bytes && vnodes[id].dirOffset + 32 <= |bytes[dir]|
                     && var at := vnodes[id].dirOffset;
                        && bytes[dir][at..at + 11] == name && bytes[dir][at + 11] == 0x20
                        && bytes[dir][at + 12] == ntRes && forall i | at + 13 <= i < at + 32 :: bytes[dir][i] == 0
      ensures Lengthened(old(mnt.vol.fat), old(chains), mnt.vol.fat, chains - {id}, dir)
      ensures if ok then id in chains && chains[id] == [] else id !in chains
      ensures ok ==> mnt.vol.OnDevice()
    {
      hide Consistent, Mount.Counted, Volume.OnDevice, NoneFree, Grown, Created, Aligned, FreeSlot, Lengthened, Overlay,
           NewEntry, Mount.Valid, Full;
      KeysOf(mnt.vol.fat, mnt.vol.data, vnodes, chains, bytes, parent);
      var at: nat;
      ok, at := FindFreeDirent(dir);
      KeysOf(mnt.vol.fat, mnt.vol.data, vnodes, chains, bytes, parent);
      assert chains - {id} == chains == chains[id := []] - {id};
      if !ok {
        return;
      }
      FactsOf(mnt.vol.fat, mnt.vol.data, vnodes, chains, bytes, parent, dir);
      CreatedOf(vnodes, old(bytes), bytes, parent, dir, at, name, ntRes, id);
      Enlist(dir, at, name, ntRes, id);
      CreatedSpells(old(vnodes), old(bytes), vnodes, bytes, parent, dir, name, ntRes, id);
      Flush();
    }

    /** Fills a free slot of the directory and makes the vnode for it. */
    method Enlist(dir: nat, at: nat, name: seq<byte>, ntRes: byte, id: nat)
      requires Valid() && dir in vnodes && vnodes[dir].isDir && chains[dir] != [] && id !in vnodes
      requires |name| == 11 && !FreeSlot(name[0])
      requires Aligned(at) && at + 32 <= |bytes[dir]| && FreeSlot(bytes[dir][at])
      modifies this, mnt.vol, mnt.vol.cache
      ensures Valid() && mnt.vol.fat == old(mnt.vol.fat) && (old(mnt.Counted()) ==> mnt.Counted())
      ensures vnodes == old(vnodes)[id := Vnode(0, 0, false, old(vnodes)[dir].start, at)]
      ensures bytes == old(bytes)[dir := Overlay(old(bytes)[dir], at, NewEntry(name, ntRes))][id := []]
      ensures parent == old(parent)[id := dir] && chains == old(chains)[id := []]
    {
      hide Consistent, Mount.Counted, IsChain, Aligned, SlotsInUse, SlotUnlisted;
      FactsOf(mnt.vol.fat, mnt.vol.data, vnodes, chains, bytes, parent, dir);
      var entry := NewEntry(name, ntRes);
      FreshSlot(mnt.vol.fat, mnt.vol.data, vnodes, chains, bytes, parent, dir, at, entry);
      PutSlot(dir, at, entry);
      CreateStep(mnt.vol.fat, mnt.vol.data, vnodes, chains, bytes, parent, dir, at, id);
      vnodes := vnodes[id := Vnode(0, 0, false, vnodes[dir].start, at)];
      chains := chains[id := []];
      bytes := bytes[id := []];
      parent := parent[id := dir];
    }

    /** Removes a listed file: its slot is marked deleted, then the chain that its entry names is freed. `found` is the
        first cluster that the directory scan read from the entry; it is none if the entry was never updated, and then
        the file's clusters do not come back. */
    method Remove(dir: nat, id: nat, found: nat)
      requires Valid() && id in vnodes && !vnodes[id].isDir && vnodes[id].dirCluster >= FIRST
      requires parent[id] == dir && found == DirentCluster(bytes[dir], vnodes[id].dirOffset)
      requires found == vnodes[id].start || found < FIRST
      modifies this, mnt, mnt.vol, mnt.vol.cache
      ensures Valid() && (old(mnt.Counted()) ==> mnt.Counted())
      ensures vnodes == old(vnodes) - {id} && parent == old(parent) - {id} && chains == old(chains) - {id}
      ensures mnt.vol.fat == if found < FIRST then old(mnt.vol.fat) else Cleared(old(mnt.vol.fat), old(chains)[id])
      ensures mnt.vol.fat == Cleared(old(mnt.vol.fat), old(chains)[id]) <==>
              found >= FIRST || old(vnodes)[id].start < FIRST
      ensures bytes == old(bytes)[dir := Overlay(old(bytes)[dir], old(vnodes)[id].dirOffset, [0xE5])] - {id}
      ensures mnt.vol.OnDevice()
    {
      hide Consistent, Mount.Counted, Mount.Valid, Volume.OnDevice, SlotsInUse, DirentCluster;
      FactsOf(mnt.vol.fat, mnt.vol.data, vnodes, chains, bytes, parent, id);
      DetachStep(mnt.vol.fat, mnt.vol.data, vnodes, chains, bytes, parent, id);
      var at := vnodes[id].dirOffset;
      vnodes := vnodes[id := vnodes[id].(dirCluster := 0)];
      parent := parent - {id};
      PutSlot(dir, at, [0xE5]);
      ComesBackIff(mnt.vol.fat, chains[id]);
      Release(id, found);
      Flush();
    }

    /** Gives up a file that no directory lists any more, and frees its chain if the entry named it. */
    method Release(id: nat, found: nat)
      requires Valid() && id in vnodes && !vnodes[id].isDir && vnodes[id].dirCluster < FIRST
      requires found == vnodes[id].start || found < FIRST
      modifies this, mnt, mnt.vol, mnt.vol.cache
      ensures Valid() && (old(mnt.Counted()) ==> mnt.Counted())
      ensures vnodes == old(vnodes) - {id} && parent == old(parent) - {id} && bytes == old(bytes) - {id}
      ensures chains == old(chains) - {id}
      ensures mnt.vol.fat == if found < FIRST then old(mnt.vol.fat) else Cleared(old(mnt.vol.fat), old(chains)[id])
    {
      hide Consistent, Mount.Counted;
      FactsOf(mnt.vol.fat, mnt.vol.data, vnodes, chains, bytes, parent, id);
      FileListsNothing(mnt.vol.fat, mnt.vol.data, vnodes, chains, bytes, parent, id);
      if found >= FIRST {
        FreeStep(mnt.vol.fat, mnt.vol.data, vnodes, chains, bytes, parent, id);
        mnt.FreeChain(found, chains[id]);
      } else {
        DropStep(mnt.vol.fat, mnt.vol.data, vnodes, chains, bytes, parent, id);
      }
      vnodes := vnodes - {id};
      chains := chains - {id};
      bytes := bytes - {id};
      parent := parent - {id};
    }
  }

  method ScanCluster(buf: seq<byte>) returns (found: bool, off: nat)
    requires |buf| % 32 == 0
    ensures Aligned(off) && off <= |buf| && NoneFree(buf, off)
    ensures if found then off + 32 <= |buf| && FreeSlot(buf[off]) else off == |buf|
  {
    off := 0;
    while off < |buf|
      invariant off <= |buf| && off % 32 == 0 && NoneFree(buf, off)
    {
      if FreeSlot(buf[off]) {
        return true, off;
      }
      off := off + 32;
    }
    return false, off;
  }

  /** Looks for a slot marked free, cluster by cluster: the first one, or the end of the directory. */
  method ScanSlots(vol: Volume, start: nat, ghost ch: seq<nat>) returns (found: bool, at: nat)
    requires vol.Ready() && IsChain(vol.fat, ch) && ch[0] == start
    modifies vol.cache
    ensures vol.Ready()
    ensures var dir := Flat(vol.data, ch);
            && Aligned(at) && NoneFree(dir, at)
            && (found ==> at + 32 <= |dir| && FreeSlot(dir[at]))
            && (!found ==> at == |dir|)
  {
    hide Starts, NoneFree, FreeSlot, Aligned;
    var cs := vol.geo.clusterSize;
    ghost var dir := Flat(vol.data, ch);
    var cluster: nat := start;
    ghost var j: nat := 0;
    at := 0;
    StartsZero(cs);
    NoneFreeZero(dir);
    while cluster >= FIRST && !IsEoc(cluster)
      invariant vol.Ready()
      invariant Starts(at, j, cs) && j <= |ch| && Aligned(at) && NoneFree(dir, at)
      invariant j < |ch| ==> cluster == ch[j]
      invariant j == |ch| ==> IsEoc(cluster)
      decreases |ch| - j
    {
      var _, buf := vol.ReadCluster(cluster);
      FlatPiece(vol.data, ch, cs, at, j, 0, cs);
      var hit, off := ScanCluster(buf);
      NoneFreeJoin(dir, at, buf, off);
      if hit {
        return true, at + off;
      }
      cluster := vol.FatRead(cluster);
      StartsNext(at, j, cs);
      j, at := j + 1, at + cs;
    }
    StartsEnd(vol.data, ch, cs, at, j);
    return false, at;
  }

  lemma InData(vol: Volume, ch: seq<nat>)
    requires vol.Ready() && IsChain(vol.fat, ch)
    ensures Sized(vol.data, ch, vol.geo.clusterSize)
  {
  }

  /** Clusters off the chain are as they were. */
  ghost predicate KeptBeside(was: seq<seq<byte>>, now: seq<seq<byte>>, ch: seq<nat>) {
    |now| == |was| && forall c | 0 <= c < |was| && c !in ch :: now[c] == was[c]
  }

  lemma KeptTwice(a: seq<seq<byte>>, b: seq<seq<byte>>, c: seq<seq<byte>>, ch: seq<nat>)
    requires KeptBeside(a, b, ch) && KeptBeside(b, c, ch)
    ensures KeptBeside(a, c, ch)
  {
  }

  lemma NothingYet(flat: seq<byte>, at: nat, w: seq<byte>, data: seq<seq<byte>>, ch: seq<nat>)
    requires at <= |flat|
    ensures Overlay(flat, at, w[..0]) == flat && KeptBeside(data, data, ch)
  {
  }

  /** Rewrites one cluster of the chain with `piece` copied into it. */
  method CopyPiece(vol: Volume, cur: nat, off: nat, piece: seq<byte>, ghost ch: seq<nat>, ghost j: nat, ghost base: nat)
    requires vol.Ready() && IsChain(vol.fat, ch) && j < |ch| && ch[j] == cur
    requires off + |piece| <= vol.geo.clusterSize && Starts(base, j, vol.geo.clusterSize)
    modifies vol, vol.cache
    ensures vol.Ready() && vol.fat == old(vol.fat)
    ensures KeptBeside(old(vol.data), vol.data, ch)
    ensures base + off + |piece| <= |old(Flat(vol.data, ch))|
    ensures Flat(vol.data, ch) == Overlay(old(Flat(vol.data, ch)), base + off, piece)
  {
    var _, cluster := vol.ReadCluster(cur);
    FlatPutPiece(vol.data, ch, vol.geo.clusterSize, base, j, off, piece);
    var _ := vol.WriteCluster(cur, Overlay(cluster, off, piece));
  }

  /** Copies `w` into the chain from position `off` of its cluster `j0` on, reading and rewriting whole clusters. */
  method CopyIn(vol: Volume, first: nat, off: nat, w: seq<byte>, ghost ch: seq<nat>, ghost j0: nat, ghost base0: nat)
    requires vol.Ready() && IsChain(vol.fat, ch) && j0 < |ch| && ch[j0] == first
    requires off < vol.geo.clusterSize && Starts(base0, j0, vol.geo.clusterSize)
    requires base0 + off + |w| <= |Flat(vol.data, ch)|
    modifies vol, vol.cache
    ensures vol.Ready() && vol.fat == old(vol.fat)
    ensures KeptBeside(old(vol.data), vol.data, ch)
    ensures Flat(vol.data, ch) == Overlay(old(Flat(vol.data, ch)), base0 + off, w)
  {
    hide Starts, IsChain, Flat, Volume.Ready, Overlay, KeptBeside;
    InData(vol, ch);
    vol.Shape();
    var cs := vol.geo.clusterSize;
    ghost var flat, at, data0 := Flat(vol.data, ch), base0 + off, vol.data;
    var done: nat := 0;
    var cur: nat, inCluster: nat := first, off;
    ghost var j: nat, base: nat := j0, base0;
    NothingYet(flat, at, w, data0, ch);
    while done < |w| && cur >= FIRST && !IsEoc(cur)
      invariant vol.Ready() && vol.fat == old(vol.fat) && Sized(vol.data, ch, cs)
      invariant done <= |w| && Flat(vol.data, ch) == Overlay(flat, at, w[..done])
      invariant KeptBeside(data0, vol.data, ch)
      invariant Starts(base, j, cs) && j <= |ch|
      invariant done < |w| ==> 0 <= inCluster < cs && base + inCluster == at + done
      invariant j < |ch| ==> cur == ch[j]
      invariant j == |ch| ==> IsEoc(cur)
      decreases |ch| - j
    {
      ChainAt(vol.fat, ch, j);
      var toCopy := Min(|w| - done, cs - inCluster);
      var piece := w[done..done + toCopy];
      OverlayJoin(flat, at, w[..done], piece);
      assert w[..done] + piece == w[..done + toCopy];
      ghost var was := vol.data;
      CopyPiece(vol, cur, inCluster, piece, ch, j, base);
      KeptTwice(data0, was, vol.data, ch);
      InData(vol, ch);
      vol.Shape();
      done := done + toCopy;
      inCluster := 0;
      cur := vol.FatRead(cur);
      StartsNext(base, j, cs);
      j, base := j + 1, base + cs;
    }
    if j < |ch| { ChainAt(vol.fat, ch, j); }
    StartsEnd(vol.data, ch, cs, base, j);
    assert w[..done] == w;
  }

  /** Copies `n` bytes from position `off` of the chain's cluster `j0` on, cluster by cluster. */
  method CopyOut(vol: Volume, first: nat, off: nat, n: nat, ghost ch: seq<nat>, ghost j0: nat, ghost base0: nat)
    returns (buf: seq<byte>)
    requires vol.Ready() && IsChain(vol.fat, ch) && j0 < |ch| && ch[j0] == first
    requires off < vol.geo.clusterSize && Starts(base0, j0, vol.geo.clusterSize)
    requires base0 + off + n <= |Flat(vol.data, ch)|
    modifies vol.cache
    ensures vol.Ready() && buf == Flat(vol.data, ch)[base0 + off..base0 + off + n]
  {
    hide Starts, IsChain, Flat;
    InData(vol, ch);
    var cs := vol.geo.clusterSize;
    ghost var data := vol.data;
    ghost var flat, at := Flat(data, ch), base0 + off;
    buf := [];
    var cur: nat, inCluster: nat := first, off;
    ghost var j: nat, base: nat := j0, base0;
    while |buf| < n && cur >= FIRST && !IsEoc(cur)
      invariant vol.Ready() && |buf| <= n && buf == flat[at..at + |buf|]
      invariant Starts(base, j, cs) && j <= |ch|
      invariant |buf| < n ==> 0 <= inCluster < cs && base + inCluster == at + |buf|
      invariant j < |ch| ==> cur == ch[j]
      invariant j == |ch| ==> IsEoc(cur)
      decreases |ch| - j
    {
      ChainAt(vol.fat, ch, j);
      var _, cluster := vol.ReadCluster(cur);
      var toCopy := Min(n - |buf|, cs - inCluster);
      FlatPiece(data, ch, cs, base, j, inCluster, toCopy);
      SliceJoin(flat, at, at + |buf|, at + |buf| + toCopy);
      buf := buf + cluster[inCluster..inCluster + toCopy];
      inCluster := 0;
      cur := vol.FatRead(cur);
      StartsNext(base, j, cs);
      j, base := j + 1, base + cs;
    }
    if j < |ch| { ChainAt(vol.fat, ch, j); }
    StartsEnd(data, ch, cs, base, j);
  }
}
