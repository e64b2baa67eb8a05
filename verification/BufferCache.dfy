/** The write-back buffer cache between file systems and block devices. */
module BufferCache {
  import opened Bytes
  import opened Links
  import opened CacheModel

  class Cache {
    /** Any function of device and block number that stays below the number of buckets. */
    const hash: (int, nat) -> nat
    var heads: seq<Head>
    var hashNext: seq<int>
    var buckets: seq<int>
    var freeHead: int
    var lruPrev: seq<int>
    var lruNext: seq<int>
    var lruHead: int
    var lruTail: int
    var cachedBlocks: int
    var dirtyBlocks: int
    var disks: Disks
    /** The lists as sequences, most recently used first, and the flat disk that callers see. */
    ghost var chains: seq<seq<int>>
    ghost var free: seq<int>
    ghost var lru: seq<int>
    ghost var view: Disks

    ghost predicate Hashes() { forall d, b :: hash(d, b) < BUCKETS }

    ghost predicate Linked()
      reads this
    {
      && |hashNext| == |heads| == |lruNext|
      && Wired(hashNext, buckets, freeHead, chains, free)
      && Dll(lruPrev, lruNext, lruHead, lruTail, lru)
    }

    /** `loose`: a head that is on no list just now; `stale`: a head whose bytes are about to be overwritten. */
    ghost predicate Inv(loose: int, stale: int)
      reads this
    {
      && Hashes() && Linked()
      && Placed(hash, heads, chains, free, lru, loose)
      && Coherent(heads, lru, disks, view, stale)
      && cachedBlocks == |lru| && dirtyBlocks == DirtyBelow(heads, |heads|)
      && (forall h | 0 <= h < |heads| :: |heads[h].data| == BLOCK_SIZE)
    }

    /** What `Inv` says of everything but the order of the free list and the count of cached blocks. */
    ghost predicate Core(loose: int)
      reads this
    {
      && Hashes() && |hashNext| == |heads| == |lruNext|
      && Hung(hashNext, buckets, chains) && Dll(lruPrev, lruNext, lruHead, lruTail, lru)
      && Placed(hash, heads, chains, free, lru, loose)
      && Coherent(heads, lru, disks, view, NIL)
      && dirtyBlocks == DirtyBelow(heads, |heads|)
      && (forall h | 0 <= h < |heads| :: |heads[h].data| == BLOCK_SIZE)
    }

    lemma CoreIs(loose: int)
      ensures Inv(loose, NIL) <==> Core(loose) && Chain(hashNext, freeHead, free) && cachedBlocks == |lru|
    {
    }

    /** Nobody holds a cached buffer, so every one can be evicted, and no free head carries a key. */
    ghost predicate Idle()
      reads this
    {
      && |heads| > 0 && (forall h | h in lru && 0 <= h < |heads| :: Evictable(heads[h]))
      && (forall h | h in free && 0 <= h < |heads| :: heads[h].dev == NIL)
    }

    ghost predicate Valid()
      reads this
    {
      Inv(NIL, NIL)
    }

    /** Head `h` holds the block, is in use, and is the most recently used one. */
    ghost predicate Held(d: int, b: nat, h: int)
      reads this
    {
      && lru != [] && lru[0] == h && 0 <= h < |heads| && Holds(heads[h], d, b)
      && heads[h].busy && heads[h].refs > 0 && d in view && b < |view[d]|
    }

    /** The first head of the free list carries the key of a block, and is marked in use. */
    ghost predicate LeftKeyed(d: int, b: nat)
      reads this
    {
      && free != [] && 0 <= free[0] < |heads|
      && heads[free[0]] == Head(d, b, heads[free[0]].data, false, false, true, false, 1)
    }

    /** As `Idle`, but for one buffer that has just been handed out. */
    ghost predicate IdleBut(h: int)
      reads this
    {
      && |heads| > 0 && (forall g | g in lru && g != h && 0 <= g < |heads| :: Evictable(heads[g]))
      && (forall g | g in free && 0 <= g < |heads| :: heads[g].dev == NIL)
      && (0 <= h < |heads| ==> heads[h].refs == 1 && !heads[h].pinned)
    }

    /** An empty cache: all heads on the free list in pool order. */
    constructor (f: (int, nat) -> nat, pages: seq<seq<byte>>, ds: Disks)
      requires forall d, b :: f(d, b) < BUCKETS
      requires |pages| > 0 && (forall i | 0 <= i < |pages| :: |pages[i]| == BLOCK_SIZE) && Formatted(ds)
      ensures Valid() && Idle() && disks == ds && view == ds && |heads| == |pages|
    {
      var n := |pages|;
      hash := f;
      heads := seq(n, i requires 0 <= i < n => Head(NIL, 0, pages[i], false, false, false, false, 0));
      hashNext := seq(n, i => if i < n - 1 then i + 1 else NIL);
      buckets := seq(BUCKETS, _ => NIL);
      freeHead := 0;
      lruPrev, lruNext := seq(n, _ => NIL), seq(n, _ => NIL);
      lruHead, lruTail := NIL, NIL;
      cachedBlocks, dirtyBlocks := 0, 0;
      disks := ds;
      chains := seq(BUCKETS, _ => []);
      free := seq(n, i => i);
      lru := [];
      view := ds;
      new;
      NoneDirty(heads, n);
      FirstPlaced(hash, heads, chains, free);
    }

    // ----- list helpers -----

    method LruRemove(h: nat)
      requires Dll(lruPrev, lruNext, lruHead, lruTail, lru) && h in lru
      modifies this`lruPrev, this`lruNext, this`lruHead, this`lruTail, this`lru
      ensures Dll(lruPrev, lruNext, lruHead, lruTail, lru)
      ensures lru == Without(old(lru), h) && |lruNext| == old(|lruNext|)
    {
      ghost var k :| 0 <= k < |lru| && lru[k] == h;
      DllRemove(lruPrev, lruNext, lruHead, lruTail, lru, k);
      if lruPrev[h] != NIL {
        lruNext := lruNext[lruPrev[h] := lruNext[h]];
      } else {
        lruHead := lruNext[h];
      }
      if lruNext[h] != NIL {
        lruPrev := lruPrev[lruNext[h] := lruPrev[h]];
      } else {
        lruTail := lruPrev[h];
      }
      lruPrev := lruPrev[h := NIL];
      lruNext := lruNext[h := NIL];
      lru := Without(lru, h);
    }

    method LruAddFront(h: nat)
      requires Dll(lruPrev, lruNext, lruHead, lruTail, lru) && h < |lruNext| && h !in lru
      modifies this`lruPrev, this`lruNext, this`lruHead, this`lruTail, this`lru
      ensures Dll(lruPrev, lruNext, lruHead, lruTail, lru)
      ensures lru == [h] + old(lru) && |lruNext| == old(|lruNext|)
    {
      hide Dll, Chain, Backward;
      DllBounds(lruPrev, lruNext, lruHead, lruTail, lru);
      DllAddFront(lruPrev, lruNext, lruHead, lruTail, lru, h);
      lruPrev := lruPrev[h := NIL];
      lruNext := lruNext[h := lruHead];
      if lruHead != NIL {
        lruPrev := lruPrev[lruHead := h];
      } else {
        lruTail := h;
      }
      lruHead := h;
      lru := [h] + lru;
    }

    method LruTouch(h: nat)
      requires Dll(lruPrev, lruNext, lruHead, lruTail, lru) && h in lru
      modifies this`lruPrev, this`lruNext, this`lruHead, this`lruTail, this`lru
      ensures Dll(lruPrev, lruNext, lruHead, lruTail, lru)
      ensures lru == [h] + Without(old(lru), h) && |lruNext| == old(|lruNext|)
    {
      WithoutMembers(lru, h);
      if h == lruHead {
        assert lru[0] == h && Without(lru, h) == Cut(lru, 0);
        assert lru == [h] + Cut(lru, 0);
        return;
      }
      LruRemove(h);
      LruAddFront(h);
    }

    /** The cached head that holds the block, or -1 when none does. */
    method Find(d: int, b: nat) returns (h: int)
      requires Valid()
      ensures h == NIL <==> forall g | g in lru :: !Holds(heads[g], d, b)
      ensures h != NIL ==> h in lru && 0 <= h < |heads| && Holds(heads[h], d, b)
    {
      var k := hash(d, b);
      ghost var l := chains[k];
      h := buckets[k];
      ghost var i := 0;
      assert Chain(hashNext, buckets[k], l);
      while h != NIL
        invariant 0 <= i <= |l| && h == (if i < |l| then l[i] else NIL)
        invariant forall j | 0 <= j < i :: !Holds(heads[l[j]], d, b)
        decreases |l| - i
      {
        if heads[h].dev == d && heads[h].block == b {
          assert h in chains[k];
          return;
        }
        h := hashNext[h];
        i := i + 1;
      }
      forall g | g in lru
        ensures !Holds(heads[g], d, b)
      {
        assert Bucketed(hash, heads, chains, g);
      }
    }

    method HashAdd(h: nat)
      requires Hashes() && |hashNext| == |heads| && h < |heads| && Wired(hashNext, buckets, freeHead, chains, free)
      requires h !in free && (forall j {:trigger chains[j]} | 0 <= j < BUCKETS :: h !in chains[j])
      modifies this`hashNext, this`buckets, this`chains
      ensures Wired(hashNext, buckets, freeHead, chains, free) && |hashNext| == |heads|
      ensures var k := BucketOf(hash, heads[h]);
              k < BUCKETS == |old(chains)| && chains == old(chains)[k := [h] + old(chains)[k]]
    {
      var k := hash(heads[h].dev, heads[h].block);
      WiredPush(hashNext, buckets, freeHead, chains, free, k, h);
      hashNext := hashNext[h := buckets[k]];
      buckets := buckets[k := h];
      chains := chains[k := [h] + chains[k]];
    }

    /** Walks the bucket to the link that leads to `h` and redirects it; does nothing if there is none. */
    method HashRemove(h: nat)
      requires Hashes() && |hashNext| == |heads| && h < |heads|
      requires Hung(hashNext, buckets, chains) && Separate(chains, free)
      modifies this`hashNext, this`buckets, this`chains
      ensures Hung(hashNext, buckets, chains) && |hashNext| == |heads|
      ensures var k := BucketOf(hash, heads[h]);
              k < BUCKETS == |old(chains)| && Distinct(old(chains)[k])
              && chains == old(chains)[k := Without(old(chains)[k], h)]
              && forall x | 0 <= x < |heads| && x !in old(chains)[k] :: hashNext[x] == old(hashNext)[x]
    {
      var k := hash(heads[h].dev, heads[h].block);
      ghost var l := chains[k];
      assert Chain(hashNext, buckets[k], l);
      var prev, cur := NIL, buckets[k];
      ghost var i := 0;
      while cur != NIL
        invariant 0 <= i <= |l| && cur == (if i < |l| then l[i] else NIL)
        invariant prev == (if i > 0 then l[i - 1] else NIL)
        invariant forall j | 0 <= j < i :: l[j] != h
        invariant hashNext == old(hashNext) && buckets == old(buckets) && chains == old(chains)
        decreases |l| - i
      {
        if cur == h {
          HungUnlink(hashNext, buckets, chains, free, k, i);
          if prev == NIL {
            buckets := buckets[k := hashNext[h]];
          } else {
            hashNext := hashNext[prev := hashNext[h]];
          }
          hashNext := hashNext[h := NIL];
          chains := chains[k := Without(l, h)];
          return;
        }
        prev := cur;
        cur := hashNext[cur];
        i := i + 1;
      }
      assert chains == chains[k := l];
    }

    // ----- write-back and eviction -----

    /** Writes a dirty head back; the flat disk stays what it is. */
    method SyncHead(h: nat)
      requires Core(NIL) && h < |heads|
      modifies this`heads, this`disks, this`dirtyBlocks
      ensures Core(NIL) && heads == old(heads)[h := old(heads)[h].(dirty := false)]
      ensures old(Valid()) ==> Valid()
    {
      hide Placed, Coherent, Hung, Wired, Dll, DirtyBelow, Separate, Distinct, Inside;
      HeadFacts(hash, heads, chains, free, lru, disks, view, h);
      var x := heads[h];
      if x.dev == NIL || !x.dirty {
        return;
      }
      CoherentSync(heads, lru, disks, view, h);
      PlacedPayload(hash, heads, chains, free, lru, NIL, h, x.(dirty := false));
      DirtyUpdate(heads, |heads|, h, x.(dirty := false));
      disks := disks[x.dev := disks[x.dev][x.block := x.data]];
      heads := heads[h := x.(dirty := false)];
      dirtyBlocks := dirtyBlocks - 1;
    }

    /** Takes a clean head out of its bucket and the LRU list. */
    method Unhang(h: nat)
      requires Valid() && h in lru && h < |heads| && !heads[h].dirty
      modifies this`hashNext, this`buckets, this`chains, this`lruPrev, this`lruNext, this`lruHead, this`lruTail,
               this`lru, this`cachedBlocks
      ensures Inv(h, NIL) && Distinct(old(lru)) && lru == Without(old(lru), h)
    {
      hide Placed, Coherent, Hung, Wired, Dll, DirtyBelow, Separate, Distinct, Inside, Chain, Without, Inv, Linked;
      CoreIs(NIL);
      SizeOf(NIL);
      PlacedSeparate(hash, heads, chains, free, lru, NIL);
      ghost var l, was, next := chains, lru, hashNext;
      HashRemove(h);
      FreeUntouched(l, next, BucketOf(hash, heads[h]));
      LruRemove(h);
      EvictStep(l, was, h);
      cachedBlocks := cachedBlocks - 1;
      CoreIs(h);
    }

    /** The free list does not see links of heads in buckets change. */
    lemma FreeUntouched(l: seq<seq<int>>, next: seq<int>, k: nat)
      requires Separate(l, free) && k < |l| && |next| == |hashNext| == |heads| && Chain(next, freeHead, free)
      requires forall x | 0 <= x < |heads| && x !in l[k] :: hashNext[x] == next[x]
      ensures Chain(hashNext, freeHead, free)
    {
      ChainFrame(next, hashNext, freeHead, free);
    }

    lemma EvictStep(l: seq<seq<int>>, was: seq<int>, h: nat)
      requires Placed(hash, heads, l, free, was, NIL) && Coherent(heads, was, disks, view, NIL) && h in was
      requires Hashes() && Distinct(was) && h < |heads| == |lruNext| && !heads[h].dirty && lru == Without(was, h)
      requires Dll(lruPrev, lruNext, lruHead, lruTail, lru)
      requires var k := BucketOf(hash, heads[h]);
               k < BUCKETS == |l| && Distinct(l[k]) && chains == l[k := Without(l[k], h)]
      ensures Placed(hash, heads, chains, free, lru, h) && Coherent(heads, lru, disks, view, NIL) && |lru| == |was| - 1
    {
      hide Placed, Coherent, Dll, Distinct, Without;
      var k := BucketOf(hash, heads[h]);
      HeadFacts(hash, heads, l, free, was, disks, view, h);
      WithoutMembers(l[k], h);
      WithoutMembers(was, h);
      DllDistinct(lruPrev, lruNext, lruHead, lruTail, lru);
      PlacedEvict(hash, heads, l, free, was, h, k, chains[k], lru);
      CoherentDrop(heads, was, disks, view, h, lru, heads[h]);
      assert heads == heads[h := heads[h]];
    }

    /** The loose head given a new key and payload. */
    method Assign(h: nat, x: Head)
      requires Inv(h, NIL) && h < |heads| && !heads[h].dirty && !x.dirty && |x.data| == BLOCK_SIZE
      modifies this`heads
      ensures Inv(h, NIL) && heads == old(heads)[h := x]
    {
      hide Placed, Coherent, Wired, Dll, DirtyBelow, Separate, Distinct, Inside;
      LooseFacts(hash, heads, chains, free, lru, h);
      PlacedLoose(hash, heads, chains, free, lru, h, x);
      CoherentFlags(heads, lru, disks, view, NIL, h, x);
      DirtyUpdate(heads, |heads|, h, x);
      heads := heads[h := x];
    }

    lemma SetTwice(hs: seq<Head>, h: nat, x: Head, y: Head)
      requires h < |hs|
      ensures hs[h := x][h := y] == hs[h := y]
    {
    }

    lemma Sized(loose: int, h: nat)
      requires Inv(loose, NIL) && h < |heads|
      ensures |heads[h].data| == BLOCK_SIZE
    {
    }

    /** Evicts a cached head, written back first if dirty, and clears it. */
    method Detach(h: nat)
      requires Valid() && h in lru && h < |heads|
      modifies this
      ensures Inv(h, NIL) && view == old(view) && free == old(free)
      ensures Distinct(old(lru)) && lru == Without(old(lru), h) && |heads| == |old(heads)|
      ensures heads == old(heads)[h := old(heads)[h].(dev := NIL, block := 0, valid := false, dirty := false,
                                                      busy := false, pinned := false)]
    {
      hide Placed, Coherent, Wired, Dll, DirtyBelow, Separate, Distinct, Inside, Inv, Core, Without, Hashes, Linked;
      var y := heads[h].(dev := NIL, block := 0, valid := false, dirty := false, busy := false, pinned := false);
      Sized(NIL, h);
      SetTwice(heads, h, heads[h].(dirty := false), y);
      CoreIs(NIL);
      SyncHead(h);
      Unhang(h);
      Assign(h, y);
    }

    /** A head for a new block: from the free list, else the least recently used one that nobody uses. */
    method Alloc() returns (h: int)
      requires Valid()
      modifies this
      ensures Inv(h, NIL) && view == old(view) && |heads| == |old(heads)|
      ensures h != NIL ==> 0 <= h < |heads| && !heads[h].dirty
      ensures h == NIL ==> unchanged(this) && free == [] && forall g | g in lru :: !Evictable(heads[g])
      ensures h != NIL && old(free) != [] ==> h == old(free)[0] && free == old(free)[1..]
                                               && lru == old(lru) && heads == old(heads)
      ensures h != NIL && old(free) == [] ==>
                && free == [] && Victim(old(heads), old(lru), h) && Distinct(old(lru)) && lru == Without(old(lru), h)
                && (forall g | 0 <= g < |heads| && g != h :: heads[g] == old(heads)[g])
      ensures HeldStay(old(heads), old(lru), heads, lru, NIL)
      ensures h == NIL ==> forall g | g in lru && 0 <= g < |heads| ::
                heads[g].busy || heads[g].pinned || heads[g].refs > 0
    {
      hide Placed, Coherent, Wired, Dll, DirtyBelow, Inv, Victim, Hashes, Linked, Evictable;
      FreeAt();
      if freeHead != NIL {
        h := freeHead;
        PopFree();
        return;
      }
      h := Evict();
    }

    lemma FreeAt()
      requires Valid()
      ensures freeHead == NIL <==> free == []
      ensures free != [] ==> freeHead == free[0] && 0 <= freeHead < |heads|
      ensures HeldStay(heads, lru, heads, lru, NIL)
    {
    }

    /** The first head of the free list. */
    method PopFree()
      requires Valid() && free != []
      modifies this`hashNext, this`freeHead, this`free
      ensures Inv(old(free)[0], NIL) && free == old(free)[1..]
      ensures 0 <= old(free)[0] < |heads| && !heads[old(free)[0]].dirty
    {
      hide Placed, Coherent, Wired, Dll, DirtyBelow;
      FreeFacts(hashNext, buckets, freeHead, chains, free);
      PlacedSeparate(hash, heads, chains, free, lru, NIL);
      WiredFreePop(hashNext, buckets, freeHead, chains, free);
      PlacedPop(hash, heads, chains, free, lru);
      FreeClean(hash, heads, chains, free, lru);
      var h := freeHead;
      freeHead := hashNext[h];
      hashNext := hashNext[h := NIL];
      free := free[1..];
    }

    /** The least recently used head that nobody uses, found from the tail of the list. */
    method Evict() returns (h: int)
      requires Valid()
      modifies this
      ensures Inv(h, NIL) && view == old(view) && |heads| == |old(heads)| && free == old(free)
      ensures h == NIL ==> unchanged(this) && forall g | g in lru :: !Evictable(heads[g])
      ensures h != NIL ==>
                && 0 <= h < |heads| && !heads[h].dirty && Distinct(old(lru)) && lru == Without(old(lru), h)
                && Victim(old(heads), old(lru), h)
                && (forall g | 0 <= g < |heads| && g != h :: heads[g] == old(heads)[g])
      ensures HeldStay(old(heads), old(lru), heads, lru, NIL)
      ensures h == NIL ==> forall g | g in lru && 0 <= g < |heads| ::
                heads[g].busy || heads[g].pinned || heads[g].refs > 0
    {
      hide Placed, Coherent, Wired, DirtyBelow, Without;
      WithoutAll(lru);
      h := lruTail;
      ghost var i := |lru| - 1;
      while h != NIL
        invariant -1 <= i < |lru| && h == (if i >= 0 then lru[i] else NIL)
        invariant forall j | i < j < |lru| :: !Evictable(heads[lru[j]])
        invariant unchanged(this)
        decreases i
      {
        if Evictable(heads[h]) {
          assert Victim(heads, lru, h);
          Detach(h);
          return;
        }
        h := lruPrev[h];
        i := i - 1;
      }
    }

    /** Hangs the loose head into its bucket and at the front of the LRU list. */
    method Admit(h: nat, ghost stale: int)
      requires Inv(h, NIL) && h < |heads| && heads[h].dev in disks && heads[h].block < |disks[heads[h].dev]|
      requires forall g | g in lru :: !Holds(heads[g], heads[h].dev, heads[h].block)
      requires stale == h || (stale == NIL && heads[h].data == view[heads[h].dev][heads[h].block])
      modifies this`hashNext, this`buckets, this`chains, this`lruPrev, this`lruNext, this`lruHead, this`lruTail,
               this`lru, this`cachedBlocks
      ensures Inv(NIL, stale) && lru == [h] + old(lru)
    {
      hide Placed, Coherent, Wired, Dll, DirtyBelow, Separate, Distinct, Inside, Without, Formatted;
      LooseFacts(hash, heads, chains, free, lru, h);
      PlacedSeparate(hash, heads, chains, free, lru, h);
      PlacedAdmit(hash, heads, chains, free, lru, h, BucketOf(hash, heads[h]));
      CoherentAdmit(heads, lru, disks, view, h, stale);
      cachedBlocks := cachedBlocks + 1;
      HashAdd(h);
      LruAddFront(h);
    }

    // ----- getting and releasing buffers -----

    /** A cached buffer handed out once more. */
    method Use(h: nat)
      requires Valid() && h in lru && h < |heads|
      modifies this`heads, this`lruPrev, this`lruNext, this`lruHead, this`lruTail, this`lru
      ensures Valid() && Distinct(old(lru)) && lru == [h] + Without(old(lru), h)
      ensures heads == old(heads)[h := old(heads)[h].(refs := old(heads)[h].refs + 1, busy := true)]
    {
      hide Placed, Coherent, Wired, Dll, DirtyBelow, Separate, Distinct, Inside, Without, Formatted;
      DllDistinct(lruPrev, lruNext, lruHead, lruTail, lru);
      WithoutMembers(lru, h);
      var x := heads[h].(refs := heads[h].refs + 1, busy := true);
      HeadFacts(hash, heads, chains, free, lru, disks, view, h);
      PlacedPayload(hash, heads, chains, free, lru, NIL, h, x);
      CoherentFlags(heads, lru, disks, view, NIL, h, x);
      DirtyUpdate(heads, |heads|, h, x);
      heads := heads[h := x];
      ghost var was := lru;
      LruTouch(h);
      DllDistinct(lruPrev, lruNext, lruHead, lruTail, lru);
      PlacedReorder(hash, heads, chains, free, was, NIL, lru);
      CoherentReorder(heads, was, disks, view, NIL, lru);
    }

    /** The loose head put on the free list. */
    method PutBack(h: nat)
      requires Inv(h, NIL) && h < |heads| && !heads[h].dirty
      modifies this`hashNext, this`freeHead, this`free
      ensures Valid() && free == [h] + old(free)
    {
      hide Placed, Coherent, Wired, Dll, DirtyBelow, Separate, Distinct, Inside;
      LooseFacts(hash, heads, chains, free, lru, h);
      PlacedSeparate(hash, heads, chains, free, lru, h);
      WiredFreePush(hashNext, buckets, freeHead, chains, free, h);
      PlacedPush(hash, heads, chains, free, lru, h);
      hashNext := hashNext[h := freeHead];
      freeHead := h;
      free := [h] + free;
    }

    /** The cached buffer of a block, handed out; -1, and nothing changed, when the block is not cached. */
    method Hit(d: int, b: nat) returns (h: int)
      requires Valid()
      modifies this`heads, this`lruPrev, this`lruNext, this`lruHead, this`lruTail, this`lru
      ensures Valid()
      ensures h == NIL ==> unchanged(this) && forall g | g in lru :: !Holds(heads[g], d, b)
      ensures HeldStay(old(heads), old(lru), heads, lru, h)
      ensures h != NIL ==> h in old(lru) && h < |old(heads)| && Holds(old(heads)[h], d, b)
      ensures h != NIL ==> Held(d, b, h) && heads[h].data == view[d][b] && |heads| == |old(heads)|
      ensures h != NIL && old(Idle()) ==> IdleBut(h)
    {
      hide Placed, Coherent, Wired, Dll, DirtyBelow, Separate, Distinct, Inside;
      DllDistinct(lruPrev, lruNext, lruHead, lruTail, lru);
      h := Find(d, b);
      if h != NIL {
        HeadFacts(hash, heads, chains, free, lru, disks, view, h);
        WithoutMembers(lru, h);
        Use(h);
      }
    }

    /** Frees up a head for a block that no head holds, and gives it that key. */
    method Claim(d: int, b: nat) returns (h: int)
      requires Valid() && d in disks && (forall g | g in lru :: !Holds(heads[g], d, b))
      modifies this
      ensures Inv(h, NIL) && view == old(view) && disks.Keys == old(disks).Keys && |heads| == |old(heads)|
      ensures forall g | g in lru && g != h :: !Holds(heads[g], d, b)
      ensures h != NIL ==> 0 <= h < |heads| && heads[h] == Head(d, b, heads[h].data, false, false, true, false, 1)
      ensures h == NIL ==> free == [] && forall g | g in lru :: !Evictable(heads[g])
      ensures old(Idle()) ==> h != NIL && IdleBut(h)
      ensures HeldStay(old(heads), old(lru), heads, lru, NIL)
    {
      hide Placed, Coherent, Wired, Dll, DirtyBelow, Separate, Distinct, Inside;
      DllDistinct(lruPrev, lruNext, lruHead, lruTail, lru);
      KeysOf(heads, lru, disks, view, NIL);
      SomewhereOf(hash, heads, chains, free, lru);
      WithoutAll(lru);
      h := Alloc();
      if h != NIL {
        LooseFacts(hash, heads, chains, free, lru, h);
        KeysOf(heads, lru, disks, view, NIL);
        Assign(h, Head(d, b, heads[h].data, false, false, true, false, 1));
      }
    }

    /** The buffer of a block with the block's bytes in it, read from the device unless cached; it becomes the most
        recently used one. -1 when the block does not exist or every buffer is in use. A head whose block turns out
        not to exist goes to the free list with its key still set, in use for good. */
    method Get(d: int, b: nat) returns (h: int)
      requires Valid()
      modifies this
      ensures Valid() && view == old(view) && |heads| == |old(heads)|
      ensures h != NIL ==> Held(d, b, h) && heads[h].data == view[d][b]
      ensures old(Idle()) ==> (h == NIL <==> d !in view || b >= |view[d]|) && (h != NIL ==> IdleBut(h))
      ensures d in view && b >= |view[d]| ==>
                LeftKeyed(d, b) || (free == [] && forall g | g in lru :: !Evictable(heads[g]))
      ensures d in view && b >= |view[d]| && old(Idle()) ==> LeftKeyed(d, b)
      ensures HeldStay(old(heads), old(lru), heads, lru, h)
      ensures h in old(lru) && 0 <= h < |old(heads)|
              && (old(heads)[h].busy || old(heads)[h].pinned || old(heads)[h].refs > 0) ==>
                old(heads)[h].dev == d && old(heads)[h].block == b
    {
      hide Placed, Coherent, Wired, Dll, DirtyBelow, Separate, Distinct, Inside, Without, Formatted, Inv, Hashes,
           Linked;
      Facts(NIL, d, b);
      if d !in disks {
        return NIL;
      }
      h := Hit(d, b);
      if h != NIL {
        return;
      }
      h := Claim(d, b);
      if h == NIL {
        return;
      }
      Facts(h, d, b);
      if b >= |disks[d]| {
        PutBack(h);
        return NIL;
      }
      Assign(h, heads[h].(data := disks[d][b], valid := true));
      Admit(h, NIL);
    }

    lemma Facts(loose: int, d: int, b: nat)
      requires Inv(loose, NIL)
      ensures view.Keys == disks.Keys && loose !in lru && loose !in free && Inside(lru, |heads|)
      ensures d in disks ==> |view[d]| == |disks[d]|
      ensures d in disks && b < |disks[d]| ==> |disks[d][b]| == BLOCK_SIZE
      ensures d in disks && b < |disks[d]| && (forall g | g in lru :: !Holds(heads[g], d, b)) ==>
              view[d][b] == disks[d][b]
    {
    }

    /** The buffer of a block that the caller is about to overwrite in full; on a miss it carries whatever the
        recycled head carried. */
    method GetNew(d: int, b: nat) returns (h: int)
      requires Valid() && d in view && b < |view[d]|
      modifies this
      ensures Inv(NIL, h) && view == old(view) && |heads| == |old(heads)|
      ensures h != NIL ==> Held(d, b, h)
      ensures old(Idle()) ==> h != NIL && IdleBut(h)
    {
      hide Placed, Coherent, Wired, Dll, DirtyBelow, Separate, Distinct, Inside, Without, Formatted, Inv, Hashes,
           Linked;
      Facts(NIL, d, b);
      h := Hit(d, b);
      if h != NIL {
        MarkValid(h);
        return;
      }
      h := Claim(d, b);
      if h != NIL {
        Facts(h, d, b);
        Sized(h, h);
        Assign(h, heads[h].(valid := true));
        Admit(h, h);
      }
    }

    method MarkValid(h: nat)
      requires Valid() && h in lru && h < |heads|
      modifies this`heads
      ensures Inv(NIL, h) && heads == old(heads)[h := old(heads)[h].(valid := true)]
    {
      hide Placed, Coherent, Wired, Dll, DirtyBelow, Separate, Distinct, Inside;
      DllDistinct(lruPrev, lruNext, lruHead, lruTail, lru);
      var x := heads[h].(valid := true);
      HeadFacts(hash, heads, chains, free, lru, disks, view, h);
      PlacedPayload(hash, heads, chains, free, lru, NIL, h, x);
      CoherentFlags(heads, lru, disks, view, NIL, h, x);
      DirtyUpdate(heads, |heads|, h, x);
      heads := heads[h := x];
      MoreStale(heads, lru, disks, view, h);
    }

    method Release(h: nat)
      requires Valid() && h in lru && h < |heads|
      modifies this`heads
      ensures Valid()
      ensures heads == old(heads)[h := old(heads)[h].(refs := if old(heads)[h].refs > 0 then old(heads)[h].refs - 1
              else 0,
                                                      busy := false)]
    {
      hide Placed, Coherent, Wired, Dll, DirtyBelow, Separate, Distinct, Inside;
      DllDistinct(lruPrev, lruNext, lruHead, lruTail, lru);
      var x := heads[h].(refs := if heads[h].refs > 0 then heads[h].refs - 1 else 0, busy := false);
      HeadFacts(hash, heads, chains, free, lru, disks, view, h);
      PlacedPayload(hash, heads, chains, free, lru, NIL, h, x);
      CoherentFlags(heads, lru, disks, view, NIL, h, x);
      DirtyUpdate(heads, |heads|, h, x);
      heads := heads[h := x];
    }

    /** Copies `w` into the buffer at `off` and marks it dirty; this is what writes the flat disk. */
    method Store(h: nat, off: nat, w: seq<byte>, ghost stale: int)
      requires Inv(NIL, stale) && h in lru && h < |heads| && off + |w| <= BLOCK_SIZE
      requires stale == NIL || (stale == h && |w| == BLOCK_SIZE)
      modifies this`heads, this`dirtyBlocks, this`view
      ensures Valid()
      ensures var x := old(heads)[h];
              && x.dev in old(view) && x.block < |old(view)[x.dev]| && |x.data| == |old(view)[x.dev][x.block]|
                    == BLOCK_SIZE
              && heads == old(heads)[h := x.(data := Overlay(x.data, off, w), dirty := true)]
              && view == old(view)[x.dev := old(view)[x.dev][x.block := Overlay(old(view)[x.dev][x.block], off, w)]]
    {
      hide Placed, Coherent, Wired, Dll, DirtyBelow, Separate, Distinct, Inside;
      DllDistinct(lruPrev, lruNext, lruHead, lruTail, lru);
      StaleFacts(hash, heads, chains, free, lru, disks, view, stale, h);
      var x := heads[h];
      var y := x.(data := Overlay(x.data, off, w), dirty := true);
      CoherentStore(heads, lru, disks, view, h, stale, y.data);
      PlacedPayload(hash, heads, chains, free, lru, NIL, h, y);
      DirtyUpdate(heads, |heads|, h, y);
      if !x.dirty {
        dirtyBlocks := dirtyBlocks + 1;
      }
      heads := heads[h := y];
      assert y.data == Overlay(view[x.dev][x.block], off, w);
      view := view[x.dev := view[x.dev][x.block := y.data]];
    }

    // ----- syncing and invalidating -----

    /** Writes back every dirty buffer, or those of one device; what was written back equals the flat disk. */
    method SyncAll(all: bool, d: int)
      requires Valid()
      modifies this`heads, this`disks, this`dirtyBlocks
      ensures Valid()
      ensures forall h | 0 <= h < |heads| && (all || heads[h].dev == d) :: !heads[h].dirty
      ensures |heads| == |old(heads)|
              && forall h | 0 <= h < |heads| :: heads[h] == old(heads)[h].(dirty := heads[h].dirty)
      ensures d in disks ==> disks[d] == view[d]
      ensures all ==> disks == view
    {
      hide Placed, Coherent, Wired, Dll, DirtyBelow, Separate, Distinct, Inside;
      var i := 0;
      while i < |heads|
        invariant Valid() && 0 <= i <= |heads| == |old(heads)|
        invariant forall h | 0 <= h < i && (all || heads[h].dev == d) :: !heads[h].dirty
        invariant forall h | 0 <= h < |heads| :: heads[h] == old(heads)[h].(dirty := heads[h].dirty)
      {
        if heads[i].dirty && (all || heads[i].dev == d) {
          CoreIs(NIL);
          SyncHead(i);
        }
        i := i + 1;
      }
      DllDistinct(lruPrev, lruNext, lruHead, lruTail, lru);
      KeysOf(heads, lru, disks, view, NIL);
      forall e | e in disks && (all || e == d)
        ensures disks[e] == view[e]
      {
        CleanMeansSynced(heads, lru, disks, view, e);
      }
    }

    /** Drops every buffer of a device after writing it back. A free head that still carries the device is freed a
        second time: the free list is a list afterwards if and only if there was no such head, and the count of cached
        blocks is short by the number of them. */
    method Invalidate(d: int)
      requires Valid()
      modifies this
      ensures Core(NIL) && view == old(view) && |heads| == |old(heads)|
      ensures forall h | 0 <= h < |heads| ::
                heads[h] == if old(heads)[h].dev == d
                            then Head(NIL, 0, old(heads)[h].data, false, false, false, false, 0) else old(heads)[h]
      ensures d != NIL ==> forall h | 0 <= h < |heads| :: heads[h].dev != d
      ensures d in disks ==> disks[d] == view[d]
      ensures cachedBlocks == |lru| - FreeWith(old(heads), old(free), d, |old(heads)|)
      ensures IsList(hashNext, freeHead) <==> NoneCarries(old(heads), old(free), d)
      ensures Valid() <==> NoneCarries(old(heads), old(free), d)
      ensures old(Idle()) && d != NIL ==> Idle() && Valid()
    {
      hide Placed, Coherent, Hung, Dll, DirtyBelow, Separate, Distinct, Inside, Core, Inv, Chain, Lasso, IsList,
           FreeList, Without, Swept, FreeWith;
      ghost var hs, fr, p := heads, free, [];
      SweptNone(hs, fr, d);
      CoreIs(NIL);
      assert FreeList(hashNext, freeHead, free, p, true) by { AListYet(p); }
      var i := 0;
      while i < |heads|
        invariant Core(NIL) && view == old(view) && 0 <= i <= |heads| == |hs|
        invariant Swept(hs, fr, i, d, heads, free)
        invariant cachedBlocks == |lru| - FreeWith(hs, fr, d, i)
        invariant FreeList(hashNext, freeHead, free, p, FreeWith(hs, fr, d, i) == 0)
        invariant old(Idle()) ==> Idle()
        decreases |heads| - i
      {
        ghost var now, list := heads, free;
        SweptAt(hs, fr, i, d, now, list);
        if heads[i].dev == d {
          SizeOf(NIL);
          p := Expel(i, p, FreeWith(hs, fr, d, i) == 0);
        }
        SweptMore(hs, fr, i, d, now, list, heads, free);
        i := i + 1;
      }
      SweptAll(hs, fr, d, heads, free);
      NoneFreeWith(hs, fr, d, i);
      FreeListIff(hashNext, freeHead, free, p, FreeWith(hs, fr, d, i) == 0);
      CoreIs(NIL);
      SyncedOf(d);
    }

    lemma AListYet(p: seq<int>)
      requires Chain(hashNext, freeHead, free)
      ensures FreeList(hashNext, freeHead, free, p, true)
    {
    }

    lemma SizeOf(loose: int)
      requires Core(loose)
      ensures |heads| == |hashNext| == |lruNext| == |lruPrev| && Distinct(lru) && Inside(lru, |heads|)
      ensures forall h | 0 <= h < |heads| && h != loose :: h in free <==> h !in lru
      ensures forall h | h in free :: 0 <= h < |heads| && h !in lru
    {
    }

    lemma SyncedOf(d: int)
      requires Core(NIL) && (d != NIL ==> forall h | 0 <= h < |heads| :: heads[h].dev != d)
      ensures d in disks ==> disks[d] == view[d]
    {
      KeysOf(heads, lru, disks, view, NIL);
      if d in disks {
        CleanMeansSynced(heads, lru, disks, view, d);
      }
    }

    /** One head of the device, whether cached or free: written back, unlinked, cleared, and pushed on the free list. */
    method Expel(i: nat, ghost p: seq<int>, ghost sound: bool) returns (ghost q: seq<int>)
      requires Core(NIL) && i < |heads| && FreeList(hashNext, freeHead, free, p, sound)
      modifies this
      ensures Core(NIL) && view == old(view) && (old(Idle()) ==> Idle())
      ensures heads == old(heads)[i := Head(NIL, 0, old(heads)[i].data, false, false, false, false, 0)]
      ensures free == [i] + old(free)
      ensures |lru| == |old(lru)| - (if i in old(free) then 0 else 1) && cachedBlocks == old(cachedBlocks) - 1
      ensures FreeList(hashNext, freeHead, free, q, sound && i !in old(free))
    {
      hide Placed, Coherent, Hung, Dll, DirtyBelow, Separate, Distinct, Inside, Core, Inv, Chain, Lasso, FreeList,
           Without;
      SizeOf(NIL);
      SetTwice(heads, i, heads[i].(dirty := false), Blank(heads[i].data));
      if heads[i].dirty {
        SyncHead(i);
      }
      SizeOf(NIL);
      ghost var next := hashNext;
      WithoutMembers(lru, i);
      Unlist(i);
      Clear(i);
      q := FreeListPush(next, old(freeHead), old(free), p, sound, old(lru), i, hashNext);
    }

    /** Out of the bucket, if there, and out of the LRU list, if the links say it is on it. */
    method Unlist(i: nat)
      requires Core(NIL) && i < |heads| && !heads[i].dirty
      modifies this`hashNext, this`buckets, this`chains, this`lruPrev, this`lruNext, this`lruHead, this`lruTail,
               this`lru
      ensures Core(if i in old(lru) then i else NIL)
      ensures Distinct(old(lru)) && lru == Without(old(lru), i)
      ensures |hashNext| == |heads| && forall x | 0 <= x < |heads| && x !in old(lru) :: hashNext[x] == old(hashNext)[x]
    {
      hide Placed, Coherent, Hung, Dll, DirtyBelow, Separate, Distinct, Inside, Chain, Without;
      SizeOf(NIL);
      PlacedSeparate(hash, heads, chains, free, lru, NIL);
      ghost var l, was := chains, lru;
      InBuckets(l);
      HashRemove(i);
      OnListIff(lruPrev, lruNext, lruHead, lruTail, lru, i);
      if lruPrev[i] != NIL || lruNext[i] != NIL || i == lruHead {
        LruRemove(i);
        EvictStep(l, was, i);
      } else {
        assert chains == l;
      }
    }

    /** Heads in buckets are cached. */
    lemma InBuckets(l: seq<seq<int>>)
      requires Placed(hash, heads, l, free, lru, NIL)
      ensures forall k, x {:trigger x in l[k]} | 0 <= k < BUCKETS && x in l[k] :: x in lru
      ensures |l| == BUCKETS
    {
    }

    /** A head in no bucket and not on the LRU list, cleared and pushed on the free list. */
    method Clear(i: nat)
      requires i < |heads| && !heads[i].dirty && Core(if i in free then NIL else i)
      modifies this`heads, this`hashNext, this`freeHead, this`free, this`cachedBlocks
      ensures Core(NIL) && heads == old(heads)[i := Blank(old(heads)[i].data)]
      ensures |hashNext| == |heads| == |old(hashNext)| && hashNext == old(hashNext)[i := old(freeHead)]
      ensures freeHead == i && free == [i] + old(free) && cachedBlocks == old(cachedBlocks) - 1
    {
      hide Placed, Coherent, Hung, Dll, DirtyBelow, Separate, Distinct, Inside, Chain;
      var x := Blank(heads[i].data);
      if i in free {
        SizeOf(NIL);
        PlacedAgain(hash, heads, chains, free, lru, i, x);
      } else {
        LooseFacts(hash, heads, chains, free, lru, i);
        PlacedSeparate(hash, heads, chains, free, lru, i);
        PlacedLoose(hash, heads, chains, free, lru, i, x);
        PlacedPush(hash, heads[i := x], chains, free, lru, i);
      }
      HungFrame(hashNext, buckets, chains, i, freeHead);
      CoherentFlags(heads, lru, disks, view, NIL, i, x);
      DirtyUpdate(heads, |heads|, i, x);
      heads := heads[i := x];
      hashNext := hashNext[i := freeHead];
      freeHead := i;
      free := [i] + free;
      cachedBlocks := cachedBlocks - 1;
    }

    // ----- byte-wise input and output -----

    /** One block's share of a read. */
    method ReadPiece(d: int, b: nat, off: nat, k: nat) returns (ok: bool, piece: seq<byte>)
      requires Valid() && d in view && b < |view[d]| && off + k <= BLOCK_SIZE
      modifies this
      ensures Valid() && view == old(view) && (old(Idle()) ==> ok && Idle())
      ensures ok ==> |view[d][b]| == BLOCK_SIZE && piece == view[d][b][off..off + k]
    {
      hide Placed, Coherent, Wired, Dll, DirtyBelow, Separate, Distinct, Inside;
      var h := Get(d, b);
      if h == NIL {
        return false, [];
      }
      piece := heads[h].data[off..off + k];
      Release(h);
      DllDistinct(lruPrev, lruNext, lruHead, lruTail, lru);
      ok := true;
    }

    /** One block's share of a write; a whole block is not read first. */
    method WritePiece(d: int, b: nat, off: nat, w: seq<byte>) returns (ok: bool)
      requires Valid() && d in view && b < |view[d]| && off + |w| <= BLOCK_SIZE
      modifies this
      ensures Valid() && (old(Idle()) ==> ok && Idle()) && |old(view)[d][b]| == BLOCK_SIZE
      ensures view == if ok then old(view)[d := old(view)[d][b := Overlay(old(view)[d][b], off, w)]] else old(view)
    {
      hide Placed, Coherent, Wired, Dll, DirtyBelow, Separate, Distinct, Inside;
      DllDistinct(lruPrev, lruNext, lruHead, lruTail, lru);
      KeysOf(heads, lru, disks, view, NIL);
      var h;
      if off == 0 && |w| == BLOCK_SIZE {
        h := GetNew(d, b);
        if h == NIL {
          return false;
        }
        Store(h, off, w, h);
      } else {
        h := Get(d, b);
        if h == NIL {
          return false;
        }
        Store(h, off, w, NIL);
      }
      Release(h);
      DllDistinct(lruPrev, lruNext, lruHead, lruTail, lru);
      ok := true;
    }

    /** Reads from the flat disk, block by block through the cache; short at the end of the device. */
    method BlockRead(d: int, offset: nat, size: nat) returns (n: int, out: seq<byte>)
      requires Valid()
      modifies this
      ensures Valid() && view == old(view) && (old(Idle()) ==> Idle())
      ensures size == 0 || d !in view ==> n == -1
      ensures (n < 0 ==> out == []) && (n >= 0 ==> d in view && n == |out| <= size)
      ensures n > 0 ==> offset + n <= |FlatOf(view[d])| && out == FlatOf(view[d])[offset..offset + n]
      ensures old(Idle()) && size > 0 && d in view ==> n == Available(|FlatOf(view[d])|, offset, size)
    {
      hide Placed, Coherent, Wired, Dll, DirtyBelow, FlatOf;
      DllDistinct(lruPrev, lruNext, lruHead, lruTail, lru);
      KeysOf(heads, lru, disks, view, NIL);
      out := [];
      if d !in disks || size == 0 {
        return -1, out;
      }
      ghost var flat := FlatOf(view[d]);
      var total := |disks[d]|;
      var blockNum, blockOffset := offset / BLOCK_SIZE, offset % BLOCK_SIZE;
      while |out| < size
        invariant Valid() && view == old(view) && (old(Idle()) ==> Idle()) && |out| <= size
        invariant |out| > 0 ==> offset + |out| <= |flat| && out == flat[offset..offset + |out|]
        invariant 0 <= blockOffset < BLOCK_SIZE && 0 <= blockNum
        invariant |out| < size ==> blockNum * BLOCK_SIZE + blockOffset == offset + |out|
      {
        if blockNum >= total {
          break;
        }
        var toCopy := BLOCK_SIZE - blockOffset;
        if toCopy > size - |out| {
          toCopy := size - |out|;
        }
        var ok, piece := ReadPiece(d, blockNum, blockOffset, toCopy);
        if !ok {
          return if |out| > 0 then |out| else -1, out;
        }
        FlatBlock(view[d], blockNum, blockOffset, toCopy);
        out := out + piece;
        blockNum, blockOffset := blockNum + 1, 0;
      }
      n := |out|;
    }

    /** Writes to the flat disk, block by block through the cache; short at the end of the device. */
    method BlockWrite(d: int, offset: nat, src: seq<byte>) returns (n: int)
      requires Valid()
      modifies this
      ensures Valid() && (old(Idle()) ==> Idle())
      ensures src == [] || d !in old(view) ==> n == -1
      ensures n <= 0 ==> view == old(view)
      ensures n > 0 ==> n <= |src| && WrittenTo(old(view), view, d, offset, src[..n])
      ensures old(Idle()) && src != [] && d in old(view) ==> n == Available(|FlatOf(old(view)[d])|, offset, |src|)
    {
      hide Placed, Coherent, Wired, Dll, DirtyBelow, FlatOf, WrittenTo;
      DllDistinct(lruPrev, lruNext, lruHead, lruTail, lru);
      KeysOf(heads, lru, disks, view, NIL);
      if d !in disks || |src| == 0 {
        return -1;
      }
      WriteNone(view, d, offset);
      var total := |disks[d]|;
      ghost var size := |FlatOf(view[d])|;
      var done: nat := 0;
      var blockNum, blockOffset := offset / BLOCK_SIZE, offset % BLOCK_SIZE;
      while done < |src|
        invariant Valid() && (old(Idle()) ==> Idle()) && done <= |src|
        invariant WrittenTo(old(view), view, d, offset, src[..done])
        invariant 0 <= blockOffset < BLOCK_SIZE && 0 <= blockNum
        invariant done < |src| ==> blockNum * BLOCK_SIZE + blockOffset == offset + done
        invariant done > 0 ==> offset + done <= size
      {
        if blockNum >= total {
          break;
        }
        var toCopy := BLOCK_SIZE - blockOffset;
        if toCopy > |src| - done {
          toCopy := |src| - done;
        }
        var w := src[done..done + toCopy];
        ghost var was := view;
        WriteBounds(old(view), view, d, offset, src[..done]);
        var ok := WritePiece(d, blockNum, blockOffset, w);
        if !ok {
          return if done > 0 then done else -1;
        }
        WriteMore(old(view), was, d, offset, src[..done], blockNum, blockOffset, w);
        assert src[..done] + w == src[..done + toCopy];
        done := done + toCopy;
        blockNum, blockOffset := blockNum + 1, 0;
      }
      WriteBounds(old(view), view, d, offset, src[..done]);
      n := done;
    }
  }

  /** A failed read and then the invalidation of its device: the head that the read left on the free list, still keyed,
      is pushed on it again, and the free list closes on itself. */
  method FailedReadThenInvalidate(c: Cache, d: int, b: nat)
    requires c.Valid() && c.Idle() && d in c.view && b >= |c.view[d]|
    modifies c
    ensures !IsList(c.hashNext, c.freeHead) && c.cachedBlocks < |c.lru|
    ensures c.Core(NIL) && c.view == old(c.view)
  {
    hide Placed, Coherent, Hung, Dll, DirtyBelow, Cache.Core, Chain, IsList;
    var h := c.Get(d, b);
    NoneFreeWith(c.heads, c.free, d, |c.heads|);
    c.Invalidate(d);
  }

  // ----- whole runs -----

  datatype Op = Read(d: int, offset: nat, size: nat) | Write(d: int, offset: nat, src: seq<byte>) | Sync(d: int)
              | SyncEverything | Drop(d: int)

  datatype Reply = Data(n: int, bytes: seq<byte>) | Count(n: int) | Done

  /** What one flat byte array per device answers, and what it becomes. */
  function FlatStep(flat: map<int, seq<byte>>, op: Op): (r: (map<int, seq<byte>>, Reply))
    ensures r.0.Keys == flat.Keys
  {
    match op
    case Read(d, offset, size) =>
      if d !in flat || size == 0 then (flat, Data(-1, []))
      else
        var n := Available(|flat[d]|, offset, size);
        (flat, Data(n, if n == 0 then [] else flat[d][offset..offset + n]))
    case Write(d, offset, src) =>
      if d !in flat || src == [] then (flat, Count(-1))
      else
        var n := Available(|flat[d]|, offset, |src|);
        (if n == 0 then flat else flat[d := Overlay(flat[d], offset, src[..n])], Count(n))
    case Sync(_) => (flat, Done)
    case SyncEverything => (flat, Done)
    case Drop(_) => (flat, Done)
  }

  function FlatRun(flat: map<int, seq<byte>>, ops: seq<Op>): (r: (map<int, seq<byte>>, seq<Reply>))
  {
    if ops == [] then (flat, [])
    else
      var (flat1, replies) := FlatRun(flat, ops[..|ops| - 1]);
      var (flat2, reply) := FlatStep(flat1, ops[|ops| - 1]);
      (flat2, replies + [reply])
  }

  ghost function FlatDisks(view: Disks): map<int, seq<byte>>
    requires Formatted(view)
  {
    map d | d in view :: FlatOf(view[d])
  }

  lemma FlatDisksWrite(view: Disks, view': Disks, d: int, offset: nat, w: seq<byte>)
    requires WrittenTo(view, view', d, offset, w) && w != []
    ensures FlatDisks(view') == FlatDisks(view)[d := Overlay(FlatOf(view[d]), offset, w)]
  {
  }

  /** One operation through the cache answers as the flat arrays do. */
  method Perform(c: Cache, op: Op) returns (reply: Reply)
    requires c.Valid() && c.Idle() && Formatted(c.view) && NIL !in c.view
    requires op.Drop? ==> op.d != NIL
    modifies c
    ensures c.Valid() && c.Idle() && Formatted(c.view)
    ensures (FlatDisks(c.view), reply) == FlatStep(FlatDisks(old(c.view)), op)
  {
    hide Placed, Coherent, Wired, Dll, DirtyBelow, FlatOf;
    match op {
      case Read(d, offset, size) =>
        var n, bytes := c.BlockRead(d, offset, size);
        reply := Data(n, bytes);
      case Write(d, offset, src) =>
        ghost var was := c.view;
        var n := c.BlockWrite(d, offset, src);
        if n > 0 {
          FlatDisksWrite(was, c.view, d, offset, src[..n]);
        }
        reply := Count(n);
      case Sync(d) =>
        c.SyncAll(false, d);
        reply := Done;
      case SyncEverything =>
        c.SyncAll(true, NIL);
        reply := Done;
      case Drop(d) =>
        c.Invalidate(d);
        reply := Done;
    }
  }

  /** Any run of reads, writes, syncs and invalidations through the cache gives the replies, and leaves the contents,
      that one flat byte array per device would. */
  method Run(c: Cache, ops: seq<Op>) returns (replies: seq<Reply>)
    requires c.Valid() && c.Idle() && Formatted(c.view)
    requires forall i | 0 <= i < |ops| && ops[i].Drop? :: ops[i].d != NIL
    modifies c
    ensures c.Valid() && c.Idle() && Formatted(c.view)
    ensures (FlatDisks(c.view), replies) == FlatRun(FlatDisks(old(c.view)), ops)
  {
    hide Placed, Coherent, Wired, Dll, DirtyBelow, FlatOf, FlatStep, Cache.Idle, Cache.Inv;
    replies := [];
    var i := 0;
    while i < |ops|
      invariant 0 <= i <= |ops|
      invariant c.Valid() && c.Idle() && Formatted(c.view)
      invariant (FlatDisks(c.view), replies) == FlatRun(FlatDisks(old(c.view)), ops[..i])
    {
      var reply := Perform(c, ops[i]);
      replies := replies + [reply];
      assert ops[..i + 1][..i] == ops[..i];
      i := i + 1;
    }
    assert ops[..|ops|] == ops;
  }
}
