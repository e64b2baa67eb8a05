/** What always holds between the table, the clusters, the open vnodes and their directory entries, and why each
    step of the driver keeps it. */
module FatInvariant {
  import opened Bytes
  import opened FatLayout
  import opened FatChains
  import opened FatContent

  /** What the driver attaches to a vnode: first cluster (below 2: none yet), size, and where its entry lies. */
  datatype Vnode = Vnode(start: nat, size: nat, isDir: bool, dirCluster: nat, dirOffset: nat)

  /** The vnode's first cluster heads its chain, and its size does not exceed the chain's bytes. */
  ghost predicate Attached(v: Vnode, ch: seq<nat>, bytes: seq<byte>) {
    && v.size <= |bytes| && v.size < TWO32
    && (v.start < FIRST <==> ch == [])
    && (ch != [] ==> ch[0] == v.start)
  }

  /** `bytes` gives the flat bytes of every chain. */
  ghost predicate Backed(data: seq<seq<byte>>, chains: map<nat, seq<nat>>, bytes: map<nat, seq<byte>>) {
    && bytes.Keys == chains.Keys
    && forall p | p in chains :: Holds(data, chains[p], bytes[p])
  }

  ghost predicate Holds(data: seq<seq<byte>>, ch: seq<nat>, b: seq<byte>) {
    (forall i | 0 <= i < |ch| :: ch[i] < |data|) && b == Flat(data, ch)
  }

  /** A slot whose first byte marks it as never used or deleted. */
  predicate FreeSlot(b: byte) { b == 0 || b == 0xE5 }

  predicate Aligned(at: nat) { at % 32 == 0 }

  /** No slot below `limit` is free. */
  ghost predicate NoneFree(dir: seq<byte>, limit: nat) {
    forall k | 0 <= k < limit && k < |dir| && k % 32 == 0 :: !FreeSlot(dir[k])
  }

  /** Free are the slots that were never used and the deleted ones. */
  lemma NoneFreeIs(dir: seq<byte>, at: nat)
    requires NoneFree(dir, at)
    ensures forall i | 0 <= i < at && i % 32 == 0 && i < |dir| :: dir[i] != 0 && dir[i] != 0xE5
  {
  }

  lemma NoneFreeZero(dir: seq<byte>)
    ensures Aligned(0) && NoneFree(dir, 0)
  {
  }

  lemma NoneFreeJoin(dir: seq<byte>, at: nat, buf: seq<byte>, off: nat)
    requires Aligned(at) && Aligned(off) && at + |buf| <= |dir| && dir[at..at + |buf|] == buf
    requires NoneFree(dir, at) && NoneFree(buf, off) && off <= |buf|
    ensures Aligned(at + off) && NoneFree(dir, at + off)
    ensures off < |buf| ==> dir[at + off] == buf[off]
  {
    forall k | at <= k < at + off && k % 32 == 0
      ensures !FreeSlot(dir[k])
    {
      assert buf[k - at] == dir[k];
    }
  }

  /** The vnode's entry lies in the chain of another vnode, its directory, in a slot that is in use and that no
      other vnode has. */
  ghost predicate Listed(vs: map<nat, Vnode>, bytes: map<nat, seq<byte>>, ps: map<nat, nat>, id: nat)
    requires id in vs && bytes.Keys == vs.Keys
  {
    && id in ps && ps[id] in vs && ps[id] != id
    && vs[ps[id]].isDir && vs[ps[id]].start == vs[id].dirCluster
    && vs[id].dirOffset % 32 == 0 && vs[id].dirOffset + 32 <= |bytes[ps[id]]|
    && !FreeSlot(bytes[ps[id]][vs[id].dirOffset])
    && (forall o | o in vs && o != id && o in ps && ps[o] == ps[id] :: vs[o].dirOffset != vs[id].dirOffset)
  }

  /** With `b` as its bytes, directory `dir` still has every slot in use that some vnode is listed at. */
  ghost predicate SlotsInUse(vs: map<nat, Vnode>, ps: map<nat, nat>, dir: nat, b: seq<byte>) {
    forall o | o in vs && vs[o].dirCluster >= FIRST && o in ps && ps[o] == dir && vs[o].dirOffset < |b| ::
      !FreeSlot(b[vs[o].dirOffset])
  }

  ghost predicate AllListed(vs: map<nat, Vnode>, bytes: map<nat, seq<byte>>, ps: map<nat, nat>)
    requires bytes.Keys == vs.Keys
  {
    forall id | id in vs && vs[id].dirCluster >= FIRST :: Listed(vs, bytes, ps, id)
  }

  ghost predicate Consistent(fat: seq<nat>, data: seq<seq<byte>>, vs: map<nat, Vnode>, chains: map<nat, seq<nat>>,
                             bytes: map<nat, seq<byte>>, ps: map<nat, nat>)
  {
    && |fat| == |data|
    && chains.Keys == vs.Keys == bytes.Keys && ps.Keys <= vs.Keys
    && (forall o | o in ps :: vs[o].dirCluster >= FIRST)
    && Owned(fat, chains) && Backed(data, chains, bytes)
    && (forall id | id in vs :: Attached(vs[id], chains[id], bytes[id]))
    && AllListed(vs, bytes, ps)
  }

  /** No data cluster is free. */
  ghost predicate Full(fat: seq<nat>) {
    forall c | FIRST <= c < |fat| :: fat[c] != FREE
  }

  /** Vnode `id` has the bytes it had, followed by zeros; the others have what they had. */
  ghost predicate Grown(bs: map<nat, seq<byte>>, bs': map<nat, seq<byte>>, id: nat) {
    && id in bs && id in bs' && |bs[id]| <= |bs'[id]|
    && bs' == bs[id := bs[id] + Zeros(|bs'[id]| - |bs[id]|)]
  }

  lemma GrownBy(bs: map<nat, seq<byte>>, id: nat, k: nat)
    requires id in bs && (k > 0 ==> bs[id] == [])
    ensures Grown(bs, bs, id) && Grown(bs, bs[id := bs[id] + Zeros(k)], id)
  {
    assert bs[id] + Zeros(0) == bs[id];
  }

  lemma GrownTwice(bs: map<nat, seq<byte>>, bs': map<nat, seq<byte>>, bs'': map<nat, seq<byte>>, id: nat)
    requires Grown(bs, bs', id) && Grown(bs', bs'', id)
    ensures Grown(bs, bs'', id)
  {
    assert bs''[id] == bs[id] + Zeros(|bs''[id]| - |bs[id]|);
  }

  /** The chain of vnode `id` is longer by clusters that were free; nothing else was taken, and nothing was freed. */
  ghost predicate Lengthened(fat: seq<nat>, chains: map<nat, seq<nat>>, fat': seq<nat>, chains': map<nat, seq<nat>>,
                             id: nat)
  {
    && |fat'| == |fat| && id in chains && id in chains' && chains' == chains[id := chains'[id]]
    && chains[id] <= chains'[id]
    && forall c | FIRST <= c < |fat| ::
         && (fat'[c] != FREE <==> fat[c] != FREE || c in chains'[id])
         && (c in chains'[id] && c !in chains[id] ==> fat[c] == FREE)
  }

  /** Nothing that was in use becomes free. */
  ghost predicate StaysUsed(fat: seq<nat>, fat': seq<nat>) {
    |fat'| == |fat| && forall c | FIRST <= c < |fat| && fat[c] != FREE :: fat'[c] != FREE
  }

  lemma NotLengthened(fat: seq<nat>, chains: map<nat, seq<nat>>, id: nat)
    requires Owned(fat, chains) && id in chains
    ensures Lengthened(fat, chains, fat, chains, id)
  {
    forall c | FIRST <= c < |fat| && c in chains[id]
      ensures fat[c] != FREE
    {
      if fat[c] == FREE { FreeOffChain(fat, chains[id], c); }
    }
  }

  lemma SameChains(fat: seq<nat>, data: seq<seq<byte>>, vs: map<nat, Vnode>, chains: map<nat, seq<nat>>,
                   bytes: map<nat, seq<byte>>, ps: map<nat, nat>, id: nat)
    requires Consistent(fat, data, vs, chains, bytes, ps) && id in vs
    ensures Lengthened(fat, chains, fat, chains, id)
  {
    NotLengthened(fat, chains, id);
  }

  lemma LengthenedBy(fat: seq<nat>, chains: map<nat, seq<nat>>, fat': seq<nat>, id: nat, c: nat)
    requires Owned(fat, chains) && id in chains && FIRST <= c < |fat| && fat[c] == FREE && |fat'| == |fat|
    requires fat'[c] != FREE && forall d | FIRST <= d < |fat| && d != c :: fat'[d] != FREE <==> fat[d] != FREE
    ensures Lengthened(fat, chains, fat', chains[id := chains[id] + [c]], id)
  {
    NotLengthened(fat, chains, id);
  }

  lemma LengthenedTwice(f0: seq<nat>, c0: map<nat, seq<nat>>, f1: seq<nat>, c1: map<nat, seq<nat>>, f2: seq<nat>,
                        c2: map<nat, seq<nat>>, id: nat)
    requires Lengthened(f0, c0, f1, c1, id) && Lengthened(f1, c1, f2, c2, id)
    ensures Lengthened(f0, c0, f2, c2, id)
  {
  }

  /** The clusters in use that no vnode's chain holds. */
  ghost function Stray(fat: seq<nat>, chains: map<nat, seq<nat>>): set<nat> {
    set c | FIRST <= c < |fat| && fat[c] != FREE && forall o | o in chains :: c !in chains[o]
  }

  /** Taking clusters loses none. */
  lemma LengthenedLosesNone(fat: seq<nat>, chains: map<nat, seq<nat>>, fat': seq<nat>, chains': map<nat, seq<nat>>,
                            id: nat)
    requires Lengthened(fat, chains, fat', chains', id)
    ensures StaysUsed(fat, fat') && Stray(fat', chains') == Stray(fat, chains)
  {
    forall c | FIRST <= c < |fat|
      ensures c in Stray(fat', chains') <==> c in Stray(fat, chains)
    {
      assert forall o | o in chains && o != id :: chains'[o] == chains[o];
      assert forall x | x in chains[id] :: x in chains'[id];
    }
  }

  /** A cluster that was free and is in use has gone to the chain that was lengthened. */
  lemma TakenIntoChain(fat: seq<nat>, chains: map<nat, seq<nat>>, fat': seq<nat>, chains': map<nat, seq<nat>>, id: nat,
                       c: nat)
    requires Lengthened(fat, chains, fat', chains', id) && FIRST <= c < |fat| && fat[c] == FREE
    ensures fat'[c] != FREE ==> c in chains'[id]
  {
  }

  /** The vnode of a removed file still names a cluster. Other bytes in that cluster leave all files as they are if and
      only if no file has the cluster. */
  lemma StaleWriteIff(fat: seq<nat>, data: seq<seq<byte>>, vs: map<nat, Vnode>, chains: map<nat, seq<nat>>,
                      bytes: map<nat, seq<byte>>, ps: map<nat, nat>, c: nat, buf: seq<byte>)
    requires Consistent(fat, data, vs, chains, bytes, ps) && c < |data| && buf != data[c]
    requires forall d | FIRST <= d < |data| :: |data[d]| == |buf|
    ensures Backed(data[c := buf], chains, bytes) <==> forall o | o in chains :: c !in chains[o]
  {
    hide AllListed, Attached, IsChain;
    var data' := data[c := buf];
    forall o | o in chains
      ensures Holds(data', chains[o], bytes[o]) <==> c !in chains[o]
    {
      FactsOf(fat, data, vs, chains, bytes, ps, o);
      if c !in chains[o] {
        FlatFrame(data, data', chains[o]);
      } else {
        InTable(fat, chains[o]);
        var j :| 0 <= j < |chains[o]| && chains[o][j] == c;
        FlatAt(data, chains[o], |buf|, j);
        FlatAt(data', chains[o], |buf|, j);
      }
    }
  }

  lemma NothingTaken(fat: seq<nat>)
    ensures StaysUsed(fat, fat)
  {
  }

  /** A vnode without clusters holds none back. */
  lemma EmptyHoldsNone(fat: seq<nat>, chains: map<nat, seq<nat>>, id: nat)
    requires id in chains ==> chains[id] == []
    ensures Stray(fat, chains) == Stray(fat, chains - {id})
  {
    forall c | FIRST <= c < |fat|
      ensures c in Stray(fat, chains) <==> c in Stray(fat, chains - {id})
    {
      assert forall o | o in chains && o != id :: o in chains - {id};
    }
  }

  /** A vnode that goes loses its clusters unless they are freed. */
  lemma RemoveStrays(fat: seq<nat>, data: seq<seq<byte>>, vs: map<nat, Vnode>, chains: map<nat, seq<nat>>,
                     bytes: map<nat, seq<byte>>, ps: map<nat, nat>, id: nat)
    requires Consistent(fat, data, vs, chains, bytes, ps) && id in vs
    ensures Stray(Cleared(fat, chains[id]), chains - {id}) == Stray(fat, chains)
    ensures Stray(fat, chains - {id}) == Stray(fat, chains) + Members(chains[id])
  {
    FreedStrays(fat, chains, id);
    KeptStrays(fat, chains, id);
  }

  lemma FreedStrays(fat: seq<nat>, chains: map<nat, seq<nat>>, id: nat)
    requires id in chains
    ensures Stray(Cleared(fat, chains[id]), chains - {id}) == Stray(fat, chains)
  {
    forall c | FIRST <= c < |fat|
      ensures c in Stray(Cleared(fat, chains[id]), chains - {id}) <==> c in Stray(fat, chains)
    {
      assert forall o | o in chains && o != id :: o in chains - {id};
    }
  }

  lemma KeptStrays(fat: seq<nat>, chains: map<nat, seq<nat>>, id: nat)
    requires Owned(fat, chains) && id in chains
    ensures Stray(fat, chains - {id}) == Stray(fat, chains) + Members(chains[id])
  {
    NotLengthened(fat, chains, id);
    hide IsChain;
    forall c | FIRST <= c < |fat|
      ensures c in Stray(fat, chains - {id}) <==> c in Stray(fat, chains) || c in chains[id]
    {
      assert forall o | o in chains && o != id :: o in chains - {id} && Apart(chains[id], chains[o]);
    }
    assert Stray(fat, chains - {id}) == Stray(fat, chains) + Members(chains[id]) by {
      assert forall c | c in chains[id] :: FIRST <= c < |fat| by { InTable(fat, chains[id]); }
    }
  }

  lemma InTable(fat: seq<nat>, ch: seq<nat>)
    requires ch == [] || IsChain(fat, ch)
    ensures forall c | c in ch :: FIRST <= c < |fat|
  {
  }

  /** The state after writing `src` at `offset` into vnode `id` with result `n`, against the state before. */
  ghost predicate WriteOutcome(vs: map<nat, Vnode>, bs: map<nat, seq<byte>>,
                               vs': map<nat, Vnode>, bs': map<nat, seq<byte>>, ps: map<nat, nat>, fat': seq<nat>,
                               id: nat, src: seq<byte>, offset: nat, n: int)
  {
    && id in vs && id in vs' && bs.Keys == vs.Keys == vs'.Keys == bs'.Keys
    && -1 <= n <= |src|
    // only this vnode's first cluster and size may change
    && vs' == vs[id := vs'[id]] && vs'[id] == vs[id].(start := vs'[id].start, size := vs'[id].size)
    && (vs[id].start >= FIRST ==> vs'[id].start == vs[id].start)
    // of the other vnodes only the directory that lists this one changes, and only in this file's entry
    && (forall p | p in vs && p != id && !(n > 0 && vs[id].dirCluster >= FIRST && id in ps && p == ps[id]) ::
          bs'[p] == bs[p])
    && (n > 0 && vs[id].dirCluster >= FIRST ==>
          && id in ps && ps[id] in vs && vs[id].dirOffset + 32 <= |bs[ps[id]]|
          && vs'[id].start < TWO32 && vs'[id].size < TWO32
          && bs'[ps[id]] == PutDirent(bs[ps[id]], vs[id].dirOffset, vs'[id].start, vs'[id].size))
    // the file: grown by zeros, and overwritten by what was accepted
    && |bs[id]| <= |bs'[id]|
    && (n <= 0 ==> bs'[id] == bs[id] + Zeros(|bs'[id]| - |bs[id]|) && vs'[id].size == vs[id].size)
    && (n > 0 ==> && offset + n <= |bs'[id]| && vs'[id].start >= FIRST
                  && bs'[id] == Written(bs[id], |bs'[id]|, offset, src[..n])
                  && vs'[id].size == SizeAfter(vs[id].size, offset + n))
    // less than everything is accepted only from a directory or on a full volume, up to the last byte there is
    && (n == 0 ==> src == [] && bs' == bs && vs' == vs) && (src == [] && !vs[id].isDir ==> n == 0)
    && (n == -1 ==> vs[id].isDir || (Full(fat') && |bs'[id]| <= offset))
    && (0 < n < |src| ==> Full(fat') && offset + n == |bs'[id]|)
  }

  /** Seen as a flat byte sequence, the file is its old content, zero-filled to the offset and overwritten by the
      accepted bytes, if and only if what was accepted ends below 4 GiB; then its tail stays zero. Past that the size
      field wraps. When nothing was accepted the content is unchanged. */
  lemma WriteIsFlatIff(vs: map<nat, Vnode>, bs: map<nat, seq<byte>>, vs': map<nat, Vnode>, bs': map<nat, seq<byte>>,
                       ps: map<nat, nat>, fat': seq<nat>, id: nat, src: seq<byte>, offset: nat, n: int)
    requires WriteOutcome(vs, bs, vs', bs', ps, fat', id, src, offset, n)
    requires vs[id].size <= |bs[id]| && vs[id].size < TWO32 && TailZero(bs[id], vs[id].size)
    ensures vs'[id].size <= |bs'[id]| && vs'[id].size < TWO32
    ensures n <= 0 ==> bs'[id][..vs'[id].size] == bs[id][..vs[id].size] && TailZero(bs'[id], vs'[id].size)
    ensures n > 0 ==> (bs'[id][..vs'[id].size] == WriteSpec(bs[id][..vs[id].size], offset, src[..n])
                       <==> offset + n < TWO32)
    ensures 0 < n && offset + n < TWO32 ==> TailZero(bs'[id], vs'[id].size)
  {
    if n > 0 {
      WriteRefines(bs[id], vs[id].size, |bs'[id]|, offset, src[..n]);
    }
  }

  /** After a write that accepted bytes, the entry on disk names the file's first cluster and size, and the entry of
      every other vnode in that directory reads as before. */
  lemma WriteIsRecorded(vs: map<nat, Vnode>, bs: map<nat, seq<byte>>, vs': map<nat, Vnode>, bs': map<nat, seq<byte>>,
                        ps: map<nat, nat>, fat': seq<nat>, id: nat, src: seq<byte>, offset: nat, n: int, o: nat)
    requires WriteOutcome(vs, bs, vs', bs', ps, fat', id, src, offset, n) && AllListed(vs, bs, ps)
    requires n > 0 && vs[id].dirCluster >= FIRST
    ensures var d, at := ps[id], vs[id].dirOffset;
            DirentCluster(bs'[d], at) == vs'[id].start && DirentSize(bs'[d], at) == vs'[id].size
    ensures o in vs && o != id && vs[o].dirCluster >= FIRST && o in ps && ps[o] == ps[id] ==>
              var d, at := ps[o], vs[o].dirOffset;
              at + 32 <= |bs[d]| && bs'[d][at..at + 32] == bs[d][at..at + 32]
  {
    hide PutDirent, DirentCluster, DirentSize, Written, Full;
    var d, v := ps[id], vs'[id];
    DirentRoundTrip(bs[d], v.dirOffset, v.start, v.size);
    if o in vs && o != id && vs[o].dirCluster >= FIRST && o in ps && ps[o] == ps[id] {
      assert Listed(vs, bs, ps, o) && Listed(vs, bs, ps, id);
      SlotsApart(vs[o].dirOffset, v.dirOffset);
      var at := vs[o].dirOffset;
      assert bs'[d][at..at + 32] == bs[d][at..at + 32];
    }
  }

  lemma SlotsApart(a: nat, b: nat)
    requires a % 32 == 0 && b % 32 == 0 && a != b
    ensures a + 32 <= b || b + 32 <= a
  {
  }

  /** What the invariant says of one vnode. */
  lemma FactsOf(fat: seq<nat>, data: seq<seq<byte>>, vs: map<nat, Vnode>, chains: map<nat, seq<nat>>,
                bytes: map<nat, seq<byte>>, ps: map<nat, nat>, id: nat)
    requires Consistent(fat, data, vs, chains, bytes, ps) && id in vs
    ensures chains.Keys == vs.Keys == bytes.Keys
    ensures chains[id] != [] ==> IsChain(fat, chains[id])
    ensures Holds(data, chains[id], bytes[id]) && Attached(vs[id], chains[id], bytes[id])
    ensures vs[id].dirCluster >= FIRST ==> Listed(vs, bytes, ps, id)
  {
  }

  lemma LengthOf(fat: seq<nat>, data: seq<seq<byte>>, vs: map<nat, Vnode>, chains: map<nat, seq<nat>>,
                 bytes: map<nat, seq<byte>>, ps: map<nat, nat>, id: nat, n: nat)
    requires Consistent(fat, data, vs, chains, bytes, ps) && id in vs
    requires forall c | FIRST <= c < |data| :: |data[c]| == n
    ensures |bytes[id]| == |chains[id]| * n
  {
    FactsOf(fat, data, vs, chains, bytes, ps, id);
    FlatLength(data, chains[id], n);
  }

  lemma KeysOf(fat: seq<nat>, data: seq<seq<byte>>, vs: map<nat, Vnode>, chains: map<nat, seq<nat>>,
               bytes: map<nat, seq<byte>>, ps: map<nat, nat>)
    requires Consistent(fat, data, vs, chains, bytes, ps)
    ensures chains.Keys == vs.Keys == bytes.Keys
  {
  }

  lemma AllListedOf(fat: seq<nat>, data: seq<seq<byte>>, vs: map<nat, Vnode>, chains: map<nat, seq<nat>>,
                    bytes: map<nat, seq<byte>>, ps: map<nat, nat>)
    requires Consistent(fat, data, vs, chains, bytes, ps)
    ensures bytes.Keys == vs.Keys && AllListed(vs, bytes, ps)
  {
  }

  lemma StartBound(fat: seq<nat>, data: seq<seq<byte>>, vs: map<nat, Vnode>, chains: map<nat, seq<nat>>,
                   bytes: map<nat, seq<byte>>, ps: map<nat, nat>, id: nat)
    requires Consistent(fat, data, vs, chains, bytes, ps) && id in vs && |fat| <= BAD
    ensures vs[id].start < TWO32
  {
  }

  lemma LastInTable(fat: seq<nat>, ch: seq<nat>)
    requires IsChain(fat, ch)
    ensures FIRST <= ch[|ch| - 1] < |fat|
  {
  }

  lemma EndInUse(fat: seq<nat>, ch: seq<nat>)
    requires IsChain(fat, ch)
    ensures fat[ch[|ch| - 1]] != FREE
  {
  }

  lemma FirstLengthens(fat: seq<nat>, data: seq<seq<byte>>, vs: map<nat, Vnode>, chains: map<nat, seq<nat>>,
                       bytes: map<nat, seq<byte>>, ps: map<nat, nat>, id: nat, c: nat)
    requires Consistent(fat, data, vs, chains, bytes, ps) && id in vs && vs[id].start < FIRST
    requires FIRST <= c < |fat| && fat[c] == FREE
    ensures Lengthened(fat, chains, fat[c := EOC], chains[id := [c]], id)
  {
    FactsOf(fat, data, vs, chains, bytes, ps, id);
    assert chains[id] + [c] == [c];
    LengthenedBy(fat, chains, fat[c := EOC], id, c);
  }

  lemma NextLengthens(fat: seq<nat>, data: seq<seq<byte>>, vs: map<nat, Vnode>, chains: map<nat, seq<nat>>,
                      bytes: map<nat, seq<byte>>, ps: map<nat, nat>, id: nat, c: nat)
    requires Consistent(fat, data, vs, chains, bytes, ps) && id in vs && chains[id] != []
    requires FIRST <= c < |fat| && fat[c] == FREE
    ensures var ch := chains[id]; Lengthened(fat, chains, fat[c := EOC][ch[|ch| - 1] := c], chains[id := ch + [c]], id)
  {
    FactsOf(fat, data, vs, chains, bytes, ps, id);
    EndInUse(fat, chains[id]);
    LengthenedBy(fat, chains, fat[c := EOC][chains[id][|chains[id]| - 1] := c], id, c);
  }

  /** A free cluster, zeroed and given to a vnode that had none. */
  lemma FirstStep(fat: seq<nat>, data: seq<seq<byte>>, vs: map<nat, Vnode>, chains: map<nat, seq<nat>>,
                  bytes: map<nat, seq<byte>>, ps: map<nat, nat>, id: nat, c: nat, z: seq<byte>)
    requires Consistent(fat, data, vs, chains, bytes, ps) && id in vs && vs[id].start < FIRST
    requires FIRST <= c < |fat| && fat[c] == FREE
    ensures Consistent(fat[c := EOC], data[c := z], vs[id := vs[id].(start := c)], chains[id := [c]],
                       bytes[id := z], ps)
  {
    hide IsChain, Owned, Backed, AllListed, Listed;
    FactsOf(fat, data, vs, chains, bytes, ps, id);
    assert chains[id] + [c] == [c] && bytes[id] + z == z;
    OwnedFirst(fat, chains, id, c);
    FreshCluster(fat, data, chains, bytes, id, c, z);
    KeepsGrown(vs, bytes, vs[id := vs[id].(start := c)], ps, id, z);
  }

  /** A free cluster, zeroed and linked behind the end of a vnode's chain. */
  lemma NextStep(fat: seq<nat>, data: seq<seq<byte>>, vs: map<nat, Vnode>, chains: map<nat, seq<nat>>,
                 bytes: map<nat, seq<byte>>, ps: map<nat, nat>, id: nat, c: nat, z: seq<byte>)
    requires Consistent(fat, data, vs, chains, bytes, ps) && id in vs && chains[id] != []
    requires chains[id][|chains[id]| - 1] < |fat|
    requires FIRST <= c < |fat| && fat[c] == FREE
    ensures Consistent(fat[c := EOC][chains[id][|chains[id]| - 1] := c], data[c := z], vs,
                       chains[id := chains[id] + [c]], bytes[id := bytes[id] + z], ps)
  {
    hide IsChain, Owned, Backed, AllListed;
    OwnedAppend(fat, chains, id, c);
    FreshCluster(fat, data, chains, bytes, id, c, z);
    KeepsGrown(vs, bytes, vs, ps, id, z);
  }

  /** New bytes of the same length in a vnode's clusters, and a new size that still fits. */
  lemma PatchStep(fat: seq<nat>, data: seq<seq<byte>>, vs: map<nat, Vnode>, chains: map<nat, seq<nat>>,
                  bytes: map<nat, seq<byte>>, ps: map<nat, nat>, id: nat, data': seq<seq<byte>>, b: seq<byte>,
                  size: nat)
    requires Consistent(fat, data, vs, chains, bytes, ps) && id in vs
    requires |data'| == |data| && (forall c | 0 <= c < |data| && c !in chains[id] :: data'[c] == data[c])
    requires Holds(data', chains[id], b) && |b| == |bytes[id]| && size <= |b| && size < TWO32
    requires SlotsInUse(vs, ps, id, b)
    ensures Consistent(fat, data', vs[id := vs[id].(size := size)], chains, bytes[id := b], ps)
  {
    hide IsChain, Owned, Backed, AllListed, Holds, SlotsInUse;
    PatchBacked(fat, data, chains, bytes, id, data', b);
    KeepsPatched(vs, bytes, vs[id := vs[id].(size := size)], ps, id, b);
  }

  lemma PatchBacked(fat: seq<nat>, data: seq<seq<byte>>, chains: map<nat, seq<nat>>, bytes: map<nat, seq<byte>>,
                    id: nat, data': seq<seq<byte>>, b: seq<byte>)
    requires Owned(fat, chains) && Backed(data, chains, bytes) && id in chains
    requires |data'| == |data| && (forall c | 0 <= c < |data| && c !in chains[id] :: data'[c] == data[c])
    requires Holds(data', chains[id], b)
    ensures Backed(data', chains, bytes[id := b])
  {
    hide IsChain;
    forall p | p in chains && p != id
      ensures Holds(data', chains[p], bytes[p])
    {
      assert Apart(chains[id], chains[p]);
      assert Holds(data, chains[p], bytes[p]);
      FlatFrame(data, data', chains[p]);
    }
  }

  /** A regular file lists nothing. */
  lemma FileListsNothing(fat: seq<nat>, data: seq<seq<byte>>, vs: map<nat, Vnode>, chains: map<nat, seq<nat>>,
                         bytes: map<nat, seq<byte>>, ps: map<nat, nat>, id: nat)
    requires Consistent(fat, data, vs, chains, bytes, ps) && id in vs && !vs[id].isDir
    ensures forall o | o in vs && vs[o].dirCluster >= FIRST :: o in ps && ps[o] != id
    ensures forall b :: SlotsInUse(vs, ps, id, b)
  {
  }

  /** A new regular file without clusters, listed at a slot that is in use and that no other vnode has. */
  lemma CreateStep(fat: seq<nat>, data: seq<seq<byte>>, vs: map<nat, Vnode>, chains: map<nat, seq<nat>>,
                   bytes: map<nat, seq<byte>>, ps: map<nat, nat>, dir: nat, off: nat, id: nat)
    requires Consistent(fat, data, vs, chains, bytes, ps) && dir in vs && vs[dir].isDir && id !in vs
    requires vs[dir].start >= FIRST
    requires off % 32 == 0 && off + 32 <= |bytes[dir]| && !FreeSlot(bytes[dir][off])
    requires SlotUnlisted(vs, ps, dir, off)
    ensures Consistent(fat, data, vs[id := Vnode(0, 0, false, vs[dir].start, off)], chains[id := []],
                       bytes[id := []], ps[id := dir])
  {
    hide IsChain, AllListed, FreeSlot, Owned, Backed;
    CreateListed(vs, bytes, ps, dir, off, id);
    CreateOwned(fat, data, chains, bytes, id);
  }

  lemma CreateOwned(fat: seq<nat>, data: seq<seq<byte>>, chains: map<nat, seq<nat>>, bytes: map<nat, seq<byte>>,
                    id: nat)
    requires Owned(fat, chains) && Backed(data, chains, bytes) && id !in chains
    ensures Owned(fat, chains[id := []]) && Backed(data, chains[id := []], bytes[id := []])
  {
  }

  lemma CreateListed(vs: map<nat, Vnode>, bytes: map<nat, seq<byte>>, ps: map<nat, nat>, dir: nat, off: nat, id: nat)
    requires bytes.Keys == vs.Keys && ps.Keys <= vs.Keys && AllListed(vs, bytes, ps)
    requires dir in vs && vs[dir].isDir && id !in vs
    requires off % 32 == 0 && off + 32 <= |bytes[dir]| && !FreeSlot(bytes[dir][off])
    requires SlotUnlisted(vs, ps, dir, off)
    ensures AllListed(vs[id := Vnode(0, 0, false, vs[dir].start, off)], bytes[id := []], ps[id := dir])
  {
  }

  /** The 32 bytes of a new file's entry: name, archive attribute, case flags, no cluster, size 0. */
  function NewEntry(name: seq<byte>, ntRes: byte): (r: seq<byte>)
    requires |name| == 11
    ensures |r| == 32
  {
    name + [0x20, ntRes] + Zeros(19)
  }

  /** The state after creating `id` in `dir`: the directory, perhaps grown, gained one entry in a free slot behind
      which no earlier slot was free; the new file is empty; nothing else changed. */
  ghost predicate Created(vs: map<nat, Vnode>, bs: map<nat, seq<byte>>, vs': map<nat, Vnode>, bs': map<nat, seq<byte>>,
                          ps': map<nat, nat>, dir: nat, name: seq<byte>, ntRes: byte, id: nat)
  {
    && dir in vs && dir in bs && id !in vs && id in vs' && |name| == 11
    && vs' == vs[id := Vnode(0, 0, false, vs[dir].start, vs'[id].dirOffset)]
    && id in ps' && ps'[id] == dir
    && dir in bs' && id in bs' && bs'[id] == [] && bs'.Keys == bs.Keys + {id}
    && (forall p | p in bs && p != dir :: bs'[p] == bs[p])
    && |bs[dir]| <= |bs'[dir]| && vs'[id].dirOffset + 32 <= |bs'[dir]|
    && var grown := bs[dir] + Zeros(|bs'[dir]| - |bs[dir]|);
       && FreeSlot(grown[vs'[id].dirOffset]) && NoneFree(grown, vs'[id].dirOffset)
       && bs'[dir] == Overlay(grown, vs'[id].dirOffset, NewEntry(name, ntRes))
  }

  /** The slot of a new file: its name, the archive attribute, the case bits, and zeros. */
  lemma CreatedSpells(vs: map<nat, Vnode>, bs: map<nat, seq<byte>>, vs': map<nat, Vnode>, bs': map<nat, seq<byte>>,
                      ps': map<nat, nat>, dir: nat, name: seq<byte>, ntRes: byte, id: nat)
    requires Created(vs, bs, vs', bs', ps', dir, name, ntRes, id)
    ensures var at := vs'[id].dirOffset;
            && bs'[dir][at..at + 11] == name && bs'[dir][at + 11] == 0x20 && bs'[dir][at + 12] == ntRes
            && bs'[dir][at..at + 13] == name + [0x20, ntRes]
            && forall i | at + 13 <= i < at + 32 :: bs'[dir][i] == 0
  {
  }

  lemma CreatedOf(vs: map<nat, Vnode>, bs: map<nat, seq<byte>>, bs1: map<nat, seq<byte>>, ps: map<nat, nat>,
                  dir: nat, at: nat, name: seq<byte>, ntRes: byte, id: nat)
    requires dir in vs && dir in bs && id !in vs && bs.Keys == vs.Keys && |name| == 11 && Grown(bs, bs1, dir)
    requires at + 32 <= |bs1[dir]| && FreeSlot(bs1[dir][at]) && NoneFree(bs1[dir], at)
    ensures Created(vs, bs, vs[id := Vnode(0, 0, false, vs[dir].start, at)],
                    bs1[dir := Overlay(bs1[dir], at, NewEntry(name, ntRes))][id := []], ps[id := dir],
                    dir, name, ntRes, id)
  {
  }

  /** A zeroed cluster appended to a directory starts with a free slot. */
  lemma NewSlots(bs: map<nat, seq<byte>>, dir: nat, n: nat)
    requires dir in bs && n >= 32 && NoneFree(bs[dir], |bs[dir]|)
    ensures var b := bs[dir] + Zeros(n);
            && Grown(bs, bs[dir := b], dir) && NoneFree(b, |bs[dir]|) && FreeSlot(b[|bs[dir]|])
  {
  }

  /** No vnode has a free slot, so putting an entry there keeps every listed slot in use. */
  lemma FreshSlot(fat: seq<nat>, data: seq<seq<byte>>, vs: map<nat, Vnode>, chains: map<nat, seq<nat>>,
                  bytes: map<nat, seq<byte>>, ps: map<nat, nat>, dir: nat, at: nat, w: seq<byte>)
    requires Consistent(fat, data, vs, chains, bytes, ps) && dir in vs
    requires Aligned(at) && at + 32 <= |bytes[dir]| && FreeSlot(bytes[dir][at]) && |w| == 32
    ensures at % 32 == 0 && SlotUnlisted(vs, ps, dir, at)
    ensures SlotsInUse(vs, ps, dir, Overlay(bytes[dir], at, w))
  {
    forall o | o in vs && vs[o].dirCluster >= FIRST && o in ps && ps[o] == dir
      ensures vs[o].dirOffset != at && !FreeSlot(Overlay(bytes[dir], at, w)[vs[o].dirOffset])
    {
      assert Listed(vs, bytes, ps, o);
      SlotsApart(vs[o].dirOffset, at);
    }
  }

  /** No vnode is listed at slot `at` of `dir`. */
  ghost predicate SlotUnlisted(vs: map<nat, Vnode>, ps: map<nat, nat>, dir: nat, at: nat) {
    forall o | o in vs && o in ps && ps[o] == dir :: vs[o].dirOffset != at
  }

  lemma DetachAttached(v: Vnode, ch: seq<nat>, b: seq<byte>)
    requires Attached(v, ch, b)
    ensures Attached(v.(dirCluster := 0), ch, b)
  {
  }

  /** A vnode whose entry is given up; its slot may then be marked deleted. */
  lemma DetachStep(fat: seq<nat>, data: seq<seq<byte>>, vs: map<nat, Vnode>, chains: map<nat, seq<nat>>,
                   bytes: map<nat, seq<byte>>, ps: map<nat, nat>, id: nat)
    requires Consistent(fat, data, vs, chains, bytes, ps) && id in vs && vs[id].dirCluster >= FIRST
    ensures var vs' := vs[id := vs[id].(dirCluster := 0)];
            && Consistent(fat, data, vs', chains, bytes, ps - {id})
            && id in ps && ps[id] in bytes && vs[id].dirOffset + 32 <= |bytes[ps[id]]|
            && SlotsInUse(vs', ps - {id}, ps[id], Overlay(bytes[ps[id]], vs[id].dirOffset, [0xE5]))
  {
    hide Owned, Backed, Attached;
    assert Listed(vs, bytes, ps, id);
    var vs' := vs[id := vs[id].(dirCluster := 0)];
    assert forall p | p in vs :: Attached(vs'[p], chains[p], bytes[p]) by {
      DetachAttached(vs[id], chains[id], bytes[id]);
    }
    forall p | p in vs' && vs'[p].dirCluster >= FIRST
      ensures Listed(vs', bytes, ps - {id}, p)
    {
      assert Listed(vs, bytes, ps, p);
    }
  }

  /** The chain of a vnode that lists nothing, freed together with the vnode. */
  lemma FreeStep(fat: seq<nat>, data: seq<seq<byte>>, vs: map<nat, Vnode>, chains: map<nat, seq<nat>>,
                 bytes: map<nat, seq<byte>>, ps: map<nat, nat>, id: nat)
    requires Consistent(fat, data, vs, chains, bytes, ps) && id in vs
    requires forall o | o in vs && vs[o].dirCluster >= FIRST :: o in ps && ps[o] != id
    ensures Consistent(Cleared(fat, chains[id]), data, vs - {id}, chains - {id}, bytes - {id}, ps - {id})
  {
    hide IsChain, Owned, AllListed;
    OwnedFree(fat, chains, id);
    FreeListed(vs, bytes, ps, id);
  }

  /** A vnode that lists nothing, dropped while its clusters stay taken. */
  lemma DropStep(fat: seq<nat>, data: seq<seq<byte>>, vs: map<nat, Vnode>, chains: map<nat, seq<nat>>,
                 bytes: map<nat, seq<byte>>, ps: map<nat, nat>, id: nat)
    requires Consistent(fat, data, vs, chains, bytes, ps) && id in vs
    requires forall o | o in vs && vs[o].dirCluster >= FIRST :: o in ps && ps[o] != id
    ensures Consistent(fat, data, vs - {id}, chains - {id}, bytes - {id}, ps - {id})
  {
    hide IsChain, AllListed;
    FreeListed(vs, bytes, ps, id);
  }

  /** Leaving a chain alone is freeing it exactly when it is empty. */
  lemma ComesBackIff(fat: seq<nat>, ch: seq<nat>)
    requires ch == [] || IsChain(fat, ch)
    ensures fat == Cleared(fat, ch) <==> ch == []
  {
  }

  lemma FreeListed(vs: map<nat, Vnode>, bytes: map<nat, seq<byte>>, ps: map<nat, nat>, id: nat)
    requires bytes.Keys == vs.Keys && id in vs && AllListed(vs, bytes, ps)
    requires forall o | o in vs && vs[o].dirCluster >= FIRST :: o in ps && ps[o] != id
    ensures AllListed(vs - {id}, bytes - {id}, ps - {id})
  {
  }

  /** Patching one vnode's entry leaves every listed slot in use. */
  lemma DirentKeepsSlots(vs: map<nat, Vnode>, bytes: map<nat, seq<byte>>, ps: map<nat, nat>, id: nat)
    requires bytes.Keys == vs.Keys && AllListed(vs, bytes, ps)
    requires id in vs && vs[id].dirCluster >= FIRST && vs[id].start < TWO32 && vs[id].size < TWO32
    ensures SlotsInUse(vs, ps, ps[id], PutDirent(bytes[ps[id]], vs[id].dirOffset, vs[id].start, vs[id].size))
  {
    forall o | o in vs && vs[o].dirCluster >= FIRST && o in ps && ps[o] == ps[id]
      ensures !FreeSlot(PutDirent(bytes[ps[id]], vs[id].dirOffset, vs[id].start, vs[id].size)[vs[o].dirOffset])
    {
      assert Listed(vs, bytes, ps, o) && Listed(vs, bytes, ps, id);
      if o != id {
        SlotsApart(vs[o].dirOffset, vs[id].dirOffset);
      }
    }
  }

  /** New bytes over an entry slot in the one cluster of the directory `p` that holds it. */
  lemma SlotStep(fat: seq<nat>, data: seq<seq<byte>>, vs: map<nat, Vnode>, chains: map<nat, seq<nat>>,
                 bytes: map<nat, seq<byte>>, ps: map<nat, nat>, p: nat, off: nat, w: seq<byte>, n: nat)
    requires Consistent(fat, data, vs, chains, bytes, ps) && p in vs
    requires n > 0 && n % 32 == 0 && (forall c | FIRST <= c < |data| :: |data[c]| == n)
    requires off % 32 == 0 && off + 32 <= |bytes[p]| && |w| <= 32
    requires SlotsInUse(vs, ps, p, Overlay(bytes[p], off, w))
    ensures var j := ClusterIndex(off, n);
            && |chains[p]| > 0 && IsChain(fat, chains[p]) && chains[p][0] == vs[p].start
            && j < |chains[p]| && FIRST <= chains[p][j] < |data| && InCluster(off, n) + 32 <= n
            && Consistent(fat, data[chains[p][j] := Overlay(data[chains[p][j]], InCluster(off, n), w)], vs, chains,
                          bytes[p := Overlay(bytes[p], off, w)], ps)
  {
    hide Consistent, AllListed, Flat, Starts, FreeSlot, ClusterIndex, InCluster;
    FactsOf(fat, data, vs, chains, bytes, ps, p);
    var ch, j := chains[p], ClusterIndex(off, n);
    Locate(data, ch, n, off);
    SlotInCluster(off, n);
    FlatPutPiece(data, ch, n, off - InCluster(off, n), j, InCluster(off, n), w);
    PatchStep(fat, data, vs, chains, bytes, ps, p, data[ch[j] := Overlay(data[ch[j]], InCluster(off, n), w)],
              Overlay(bytes[p], off, w), vs[p].size);
    assert vs == vs[p := vs[p].(size := vs[p].size)];
  }

  /** A vnode's entry patched with its first cluster and size, in the one cluster of its directory that holds it. */
  lemma DirentStep(fat: seq<nat>, data: seq<seq<byte>>, vs: map<nat, Vnode>, chains: map<nat, seq<nat>>,
                   bytes: map<nat, seq<byte>>, ps: map<nat, nat>, id: nat, n: nat)
    requires Consistent(fat, data, vs, chains, bytes, ps) && id in vs && vs[id].dirCluster >= FIRST
    requires n > 0 && n % 32 == 0 && (forall c | FIRST <= c < |data| :: |data[c]| == n) && |fat| <= BAD
    ensures id in ps && ps[id] in vs && ps[id] in chains && ps[id] in bytes
    ensures var v, p, j := vs[id], ps[id], ClusterIndex(vs[id].dirOffset, n);
            && IsChain(fat, chains[p]) && |chains[p]| > 0 && chains[p][0] == v.dirCluster
            && j < |chains[p]| && FIRST <= chains[p][j] < |data|
            && v.dirOffset + 32 <= |bytes[p]| && InCluster(v.dirOffset, n) + 32 <= n && v.start < TWO32
                  && v.size < TWO32
            && Consistent(fat, data[chains[p][j] := PutDirent(data[chains[p][j]], InCluster(v.dirOffset, n), v.start,
                  v.size)],
                          vs, chains, bytes[p := PutDirent(bytes[p], v.dirOffset, v.start, v.size)], ps)
  {
    hide Consistent, PutDirent, AllListed, Flat, Starts, FreeSlot, ClusterIndex, InCluster;
    FactsOf(fat, data, vs, chains, bytes, ps, id);
    AllListedOf(fat, data, vs, chains, bytes, ps);
    StartBound(fat, data, vs, chains, bytes, ps, id);
    var v, p, j := vs[id], ps[id], ClusterIndex(vs[id].dirOffset, n);
    FactsOf(fat, data, vs, chains, bytes, ps, p);
    var ch, off := chains[p], InCluster(v.dirOffset, n);
    Locate(data, ch, n, v.dirOffset);
    SlotInCluster(v.dirOffset, n);
    PatchCluster(data, ch, n, v.dirOffset - off, j, off, v.start, v.size);
    DirentKeepsSlots(vs, bytes, ps, id);
    PatchStep(fat, data, vs, chains, bytes, ps, p, data[ch[j] := PutDirent(data[ch[j]], off, v.start, v.size)],
              PutDirent(bytes[p], v.dirOffset, v.start, v.size), vs[p].size);
    assert vs == vs[p := vs[p].(size := vs[p].size)];
  }

  lemma StoredOf(vs: map<nat, Vnode>, bs: map<nat, seq<byte>>, vs': map<nat, Vnode>, bs': map<nat, seq<byte>>,
                 ps: map<nat, nat>, id: nat, w: seq<byte>, offset: nat)
    requires id in vs && bs.Keys == vs.Keys && offset + |w| <= |bs[id]|
    requires vs' == vs[id := vs[id].(size := SizeAfter(vs[id].size, offset + |w|))]
    requires vs'[id].size < TWO32 && vs'[id].start < TWO32
    requires vs[id].dirCluster >= FIRST ==> Listed(vs, bs, ps, id)
    requires var b := bs[id := Overlay(bs[id], offset, w)];
             bs' == if vs[id].dirCluster < FIRST then b
                    else b[ps[id] := PutDirent(b[ps[id]], vs[id].dirOffset, vs'[id].start, vs'[id].size)]
    ensures Stored(vs, bs, vs', bs', ps, id, w, offset)
  {
  }

  /** A write that accepts nothing leaves the outcome for nothing. */
  lemma Refused(vs: map<nat, Vnode>, bs: map<nat, seq<byte>>, vs': map<nat, Vnode>, bs': map<nat, seq<byte>>,
                ps: map<nat, nat>, fat': seq<nat>, id: nat, src: seq<byte>, offset: nat, n: int)
    requires id in vs && bs.Keys == vs.Keys && -1 <= n <= 0
    requires id in vs' && vs' == vs[id := vs[id].(start := vs'[id].start)] && Grown(bs, bs', id)
    requires vs[id].start >= FIRST ==> vs'[id].start == vs[id].start
    requires n == 0 ==> src == [] && vs' == vs && bs' == bs
    requires n == -1 ==> vs[id].isDir || (Full(fat') && |bs'[id]| <= offset && src != [])
    ensures WriteOutcome(vs, bs, vs', bs', ps, fat', id, src, offset, n)
  {
  }

  /** Room made, then the accepted bytes copied in and the entry patched: the outcome for `n` bytes. */
  lemma Accepted(vs: map<nat, Vnode>, bs: map<nat, seq<byte>>, vs1: map<nat, Vnode>, bs1: map<nat, seq<byte>>,
                 vs': map<nat, Vnode>, bs': map<nat, seq<byte>>, ps: map<nat, nat>, fat': seq<nat>,
                 id: nat, src: seq<byte>, offset: nat, n: nat)
    requires id in vs && bs.Keys == vs.Keys && 0 < n <= |src|
    requires id in vs1 && vs1 == vs[id := vs[id].(start := vs1[id].start)] && Grown(bs, bs1, id)
    requires vs[id].start >= FIRST ==> vs1[id].start == vs[id].start
    requires offset + n <= |bs1[id]| && vs1[id].start >= FIRST
    requires n < |src| ==> Full(fat') && offset + n == |bs1[id]|
    requires Stored(vs1, bs1, vs', bs', ps, id, src[..n], offset)
    ensures WriteOutcome(vs, bs, vs', bs', ps, fat', id, src, offset, n)
  {
  }

  /** `w` stands in the file at `offset`, its size is updated and its entry patched; nothing else changed. */
  ghost predicate Stored(vs: map<nat, Vnode>, bs: map<nat, seq<byte>>, vs': map<nat, Vnode>, bs': map<nat, seq<byte>>,
                         ps: map<nat, nat>, id: nat, w: seq<byte>, offset: nat)
  {
    && id in vs && bs.Keys == vs.Keys == bs'.Keys && offset + |w| <= |bs[id]|
    && vs' == vs[id := vs[id].(size := SizeAfter(vs[id].size, offset + |w|))]
    && bs'[id] == Overlay(bs[id], offset, w)
    && (forall p | p in vs && p != id && !(vs[id].dirCluster >= FIRST && id in ps && p == ps[id]) :: bs'[p] == bs[p])
    && (vs[id].dirCluster >= FIRST ==>
          && id in ps && ps[id] in vs && ps[id] != id && vs[id].dirOffset + 32 <= |bs[ps[id]]|
          && vs'[id].start < TWO32 && vs'[id].size < TWO32
          && bs'[ps[id]] == PutDirent(bs[ps[id]], vs[id].dirOffset, vs'[id].start, vs'[id].size))
  }

  /** Writing a cluster that is still free changes no chain's bytes; appending it to a chain appends its bytes. */
  lemma FreshCluster(fat: seq<nat>, data: seq<seq<byte>>, chains: map<nat, seq<nat>>, bytes: map<nat, seq<byte>>,
                     id: nat, c: nat, buf: seq<byte>)
    requires Owned(fat, chains) && Backed(data, chains, bytes) && id in chains
    requires |data| == |fat| && c < |fat| && fat[c] == FREE
    ensures Backed(data[c := buf], chains[id := chains[id] + [c]], bytes[id := bytes[id] + buf])
  {
    hide Holds, IsChain, Apart;
    var data' := data[c := buf];
    forall p | p in chains
      ensures Holds(data', chains[p], bytes[p])
    {
      assert Holds(data, chains[p], bytes[p]);
      assert c !in chains[p] by {
        if chains[p] != [] {
          FreeOffChain(fat, chains[p], c);
        }
      }
      HoldsFrame(data, chains[p], bytes[p], c, buf);
    }
    HoldsAppend(data', chains[id], bytes[id], c);
  }

  lemma HoldsFrame(data: seq<seq<byte>>, ch: seq<nat>, b: seq<byte>, c: nat, buf: seq<byte>)
    requires Holds(data, ch, b) && c < |data| && c !in ch
    ensures Holds(data[c := buf], ch, b)
  {
    FlatFrame(data, data[c := buf], ch);
  }

  lemma HoldsAppend(data: seq<seq<byte>>, ch: seq<nat>, b: seq<byte>, c: nat)
    requires Holds(data, ch, b) && c < |data|
    ensures Holds(data, ch + [c], b + data[c])
  {
  }

  /** Sizes, and first clusters that were missing, may change without unlisting anything. */
  ghost predicate SameEntries(vs: map<nat, Vnode>, vs': map<nat, Vnode>) {
    && vs'.Keys == vs.Keys
    && (forall p | p in vs :: vs'[p] == vs[p].(start := vs'[p].start, size := vs'[p].size))
    && (forall p | p in vs && vs[p].start >= FIRST :: vs'[p].start == vs[p].start)
  }

  lemma KeepsGrown(vs: map<nat, Vnode>, bytes: map<nat, seq<byte>>, vs': map<nat, Vnode>, ps: map<nat, nat>,
                   id: nat, z: seq<byte>)
    requires bytes.Keys == vs.Keys && id in vs && SameEntries(vs, vs') && AllListed(vs, bytes, ps)
    ensures AllListed(vs', bytes[id := bytes[id] + z], ps)
  {
  }

  lemma KeepsPatched(vs: map<nat, Vnode>, bytes: map<nat, seq<byte>>, vs': map<nat, Vnode>, ps: map<nat, nat>,
                     id: nat, b: seq<byte>)
    requires bytes.Keys == vs.Keys && id in vs && SameEntries(vs, vs') && AllListed(vs, bytes, ps)
    requires |b| == |bytes[id]|
    requires SlotsInUse(vs, ps, id, b)
    ensures AllListed(vs', bytes[id := b], ps)
  {
  }
}
