/** What must hold between the buffer heads, the lists they hang in, the devices, and the flat disk that callers see. */
module CacheModel {
  import opened Bytes
  import opened Links

  const BLOCK_SIZE: nat := 4096
  const BUCKETS: nat := 32

  /** A buffer head without its links; `dev` is -1 for none. */
  datatype Head = Head(dev: int, block: nat, data: seq<byte>, valid: bool, dirty: bool, busy: bool, pinned: bool,
                       refs: nat)

  type Disks = map<int, seq<seq<byte>>>

  ghost predicate Formatted(disks: Disks) {
    && NIL !in disks
    && forall d, b | d in disks && 0 <= b < |disks[d]| :: |disks[d][b]| == BLOCK_SIZE
  }

  predicate Holds(h: Head, d: int, b: nat) { h.dev == d && h.block == b }

  /** The bucket of a head's key. */
  function BucketOf(hash: (int, nat) -> nat, h: Head): nat { hash(h.dev, h.block) }

  predicate Evictable(h: Head) { !h.busy && !h.pinned && h.refs == 0 }

  /** `h` is the least recently used head that can be evicted: everything behind it in the list is in use. */
  ghost predicate Victim(heads: seq<Head>, lru: seq<int>, h: int)
    requires Inside(lru, |heads|)
  {
    exists k :: && 0 <= k < |lru| && lru[k] == h && Evictable(heads[h])
                && forall j | k < j < |lru| :: !Evictable(heads[lru[j]])
  }

  /** Cached heads that somebody holds, `h` apart, stay cached and as they were. */
  ghost predicate HeldStay(heads: seq<Head>, lru: seq<int>, heads': seq<Head>, lru': seq<int>, h: int) {
    forall g | g in lru && g != h && 0 <= g < |heads| && (heads[g].busy || heads[g].pinned || heads[g].refs > 0) ::
      g in lru' && g < |heads'| && heads'[g] == heads[g]
  }

  /** A device as one byte sequence. */
  ghost function FlatOf(blocks: seq<seq<byte>>): (r: seq<byte>)
    requires forall b | 0 <= b < |blocks| :: |blocks[b]| == BLOCK_SIZE
    ensures |r| == |blocks| * BLOCK_SIZE
  {
    seq(|blocks| * BLOCK_SIZE,
        i requires 0 <= i < |blocks| * BLOCK_SIZE => blocks[i / BLOCK_SIZE][i % BLOCK_SIZE])
  }

  /** How much of `size` bytes from `offset` on lies on a device of `total` bytes. */
  function Available(total: nat, offset: nat, size: nat): (n: nat)
    ensures n <= size && (n > 0 ==> offset + n <= total) && (n < size ==> offset + n >= total)
  {
    if offset >= total then 0 else if offset + size <= total then size else total - offset
  }

  /** A piece of one block is a piece of the flat bytes. */
  lemma FlatBlock(blocks: seq<seq<byte>>, b: nat, off: nat, k: nat)
    requires forall c | 0 <= c < |blocks| :: |blocks[c]| == BLOCK_SIZE
    requires b < |blocks| && off + k <= BLOCK_SIZE
    ensures b * BLOCK_SIZE + off + k <= |FlatOf(blocks)|
    ensures FlatOf(blocks)[b * BLOCK_SIZE + off..b * BLOCK_SIZE + off + k] == blocks[b][off..off + k]
  {
  }

  /** Overwriting a piece of one block overwrites that piece of the flat bytes. */
  lemma FlatBlockPut(blocks: seq<seq<byte>>, b: nat, off: nat, w: seq<byte>)
    requires forall c | 0 <= c < |blocks| :: |blocks[c]| == BLOCK_SIZE
    requires b < |blocks| && off + |w| <= BLOCK_SIZE
    ensures b * BLOCK_SIZE + off + |w| <= |FlatOf(blocks)|
    ensures FlatOf(blocks[b := Overlay(blocks[b], off, w)]) == Overlay(FlatOf(blocks), b * BLOCK_SIZE + off, w)
  {
  }

  /** Of the flat disks, device `d` has `w` written over it at `offset`; no other device changed. */
  ghost predicate WrittenTo(view: Disks, view': Disks, d: int, offset: nat, w: seq<byte>) {
    && Formatted(view) && Formatted(view') && d in view && d in view' && view' == view[d := view'[d]]
    && |view'[d]| == |view[d]|
    && (w == [] ==> view' == view)
    && (w != [] ==> offset + |w| <= |FlatOf(view[d])| && FlatOf(view'[d]) == Overlay(FlatOf(view[d]), offset, w))
  }

  lemma WriteMore(view: Disks, view1: Disks, d: int, offset: nat, w: seq<byte>, b: nat, off: nat, more: seq<byte>)
    requires WrittenTo(view, view1, d, offset, w) && b < |view1[d]| && off + |more| <= BLOCK_SIZE && more != []
    requires b * BLOCK_SIZE + off == offset + |w|
    ensures WrittenTo(view, view1[d := view1[d][b := Overlay(view1[d][b], off, more)]], d, offset, w + more)
  {
    hide FlatOf;
    var blocks := view1[d][b := Overlay(view1[d][b], off, more)];
    FlatBlockPut(view1[d], b, off, more);
    assert Formatted(view1[d := blocks]);
    if w != [] {
      OverlayJoin(FlatOf(view[d]), offset, w, more);
    } else {
      assert w + more == more;
    }
  }

  lemma WriteNone(view: Disks, d: int, offset: nat)
    requires Formatted(view) && d in view
    ensures WrittenTo(view, view, d, offset, [])
  {
  }

  lemma WriteBounds(view: Disks, view': Disks, d: int, offset: nat, w: seq<byte>)
    requires WrittenTo(view, view', d, offset, w)
    ensures d in view && d in view' && |view'[d]| == |view[d]| && (w == [] ==> view' == view)
  {
  }

  /** All lists are linked as the ghost sequences say. */
  ghost predicate Wired(hashNext: seq<int>, buckets: seq<int>, freeHead: int, chains: seq<seq<int>>, free: seq<int>) {
    Hung(hashNext, buckets, chains) && Chain(hashNext, freeHead, free)
  }

  /** The hash buckets are. */
  ghost predicate Hung(hashNext: seq<int>, buckets: seq<int>, chains: seq<seq<int>>) {
    && |buckets| == |chains| == BUCKETS
    && forall k | 0 <= k < BUCKETS :: Chain(hashNext, buckets[k], chains[k])
  }

  /** Every head is in exactly one place: on the free list, or both in the LRU list and in its key's bucket; `loose`
      names the one head, if any, that is being moved. No two cached heads hold the same block. */
  ghost predicate Placed(hash: (int, nat) -> nat, heads: seq<Head>, chains: seq<seq<int>>, free: seq<int>,
                         lru: seq<int>, loose: int)
  {
    && |chains| == BUCKETS && Inside(lru, |heads|) && Inside(free, |heads|)
    && (forall h | 0 <= h < |heads| && h != loose :: h in free <==> h !in lru)
    && loose !in free && loose !in lru
    && (forall h | h in lru :: Bucketed(hash, heads, chains, h))
    && (forall k, h {:trigger h in chains[k]} | 0 <= k < BUCKETS && h in chains[k] :: h in lru
          && BucketOf(hash, heads[h]) == k)
    && (forall g, h | g in lru && h in lru && g != h :: !Holds(heads[g], heads[h].dev, heads[h].block))
    && (forall h | h in free :: !heads[h].dirty)
  }

  ghost predicate Bucketed(hash: (int, nat) -> nat, heads: seq<Head>, chains: seq<seq<int>>, h: int)
    requires 0 <= h < |heads| && |chains| == BUCKETS
  {
    var k := BucketOf(hash, heads[h]);
    k < BUCKETS && h in chains[k]
  }

  /** The flat disk `view`: cached blocks are their head's bytes, and only under a dirty head does the device lag
      behind. `stale` names a head, if any, whose bytes are about to be overwritten in full. */
  ghost predicate Coherent(heads: seq<Head>, lru: seq<int>, disks: Disks, view: Disks, stale: int)
    requires Inside(lru, |heads|)
  {
    && Formatted(disks) && Formatted(view) && view.Keys == disks.Keys
    && (forall d | d in disks :: |view[d]| == |disks[d]|)
    && (forall h | h in lru :: && heads[h].dev in disks && heads[h].block < |disks[heads[h].dev]|
                               && |heads[h].data| == BLOCK_SIZE
                               && (h != stale ==> heads[h].data == view[heads[h].dev][heads[h].block]))
    && (forall d, b | d in disks && 0 <= b < |disks[d]| :: view[d][b] == disks[d][b] || Ahead(heads, lru, stale, d, b))
  }

  /** A dirty head, or the stale one, holds the block. */
  ghost predicate Ahead(heads: seq<Head>, lru: seq<int>, stale: int, d: int, b: nat)
    requires Inside(lru, |heads|)
  {
    exists h :: h in lru && Holds(heads[h], d, b) && (heads[h].dirty || h == stale)
  }

  /** How many of the first `n` heads are dirty. */
  ghost function DirtyBelow(heads: seq<Head>, n: nat): nat
    requires n <= |heads|
  {
    if n == 0 then 0 else DirtyBelow(heads, n - 1) + if heads[n - 1].dirty then 1 else 0
  }

  lemma {:induction false} NoneDirty(heads: seq<Head>, n: nat)
    requires n <= |heads| && forall h | 0 <= h < n :: !heads[h].dirty
    ensures DirtyBelow(heads, n) == 0
  {
    if n > 0 {
      NoneDirty(heads, n - 1);
    }
  }

  lemma {:induction false} DirtyUpdate(heads: seq<Head>, n: nat, h: nat, x: Head)
    requires n <= |heads| && h < |heads|
    ensures DirtyBelow(heads[h := x], n) == DirtyBelow(heads, n)
            + if h < n then (if x.dirty then 1 else 0) - (if heads[h].dirty then 1 else 0) else 0
  {
    if n > 0 {
      DirtyUpdate(heads, n - 1, h, x);
    }
  }

  // ----- placement -----

  lemma FirstPlaced(hash: (int, nat) -> nat, heads: seq<Head>, chains: seq<seq<int>>, free: seq<int>)
    requires |chains| == BUCKETS && (forall k | 0 <= k < BUCKETS :: chains[k] == [])
    requires |free| == |heads| && (forall i | 0 <= i < |free| :: free[i] == i)
    requires forall h | 0 <= h < |heads| :: !heads[h].dirty
    ensures Placed(hash, heads, chains, free, [], NIL)
  {
    forall h | 0 <= h < |heads|
      ensures h in free
    {
      assert free[h] == h;
    }
  }

  /** Reordering the LRU list moves no head. */
  lemma PlacedReorder(hash: (int, nat) -> nat, heads: seq<Head>, chains: seq<seq<int>>, free: seq<int>, lru: seq<int>,
                      loose: int, lru': seq<int>)
    requires Placed(hash, heads, chains, free, lru, loose) && Inside(lru', |heads|)
    requires forall h :: h in lru' <==> h in lru
    ensures Placed(hash, heads, chains, free, lru', loose)
  {
  }

  /** Changing what a head carries, but not its key, moves no head. */
  lemma PlacedPayload(hash: (int, nat) -> nat, heads: seq<Head>, chains: seq<seq<int>>, free: seq<int>, lru: seq<int>,
                      loose: int, h: nat, x: Head)
    requires Placed(hash, heads, chains, free, lru, loose) && h < |heads|
    requires x.dev == heads[h].dev && x.block == heads[h].block && (h in free ==> !x.dirty)
    ensures Placed(hash, heads[h := x], chains, free, lru, loose)
  {
  }

  /** The loose head may be given any key. */
  lemma PlacedLoose(hash: (int, nat) -> nat, heads: seq<Head>, chains: seq<seq<int>>, free: seq<int>, lru: seq<int>,
                    h: nat, x: Head)
    requires Placed(hash, heads, chains, free, lru, h) && h < |heads|
    ensures Placed(hash, heads[h := x], chains, free, lru, h)
  {
  }

  /** A cached head leaves its bucket and the LRU list. */
  lemma PlacedEvict(hash: (int, nat) -> nat, heads: seq<Head>, chains: seq<seq<int>>, free: seq<int>, lru: seq<int>,
                    h: nat, k: nat, chain': seq<int>, lru': seq<int>)
    requires Placed(hash, heads, chains, free, lru, NIL) && h in lru
    requires k < BUCKETS && k == BucketOf(hash, heads[h])
    requires Inside(lru', |heads|) && (forall g :: g in lru' <==> g in lru && g != h)
    requires forall g :: g in chain' <==> g in chains[k] && g != h
    ensures Placed(hash, heads, chains[k := chain'], free, lru', h)
  {
  }

  /** The loose head, holding a block no cached head holds, enters the LRU list and its bucket. */
  lemma PlacedAdmit(hash: (int, nat) -> nat, heads: seq<Head>, chains: seq<seq<int>>, free: seq<int>, lru: seq<int>,
                    h: nat, k: nat)
    requires Placed(hash, heads, chains, free, lru, h) && h < |heads|
    requires k < BUCKETS && k == BucketOf(hash, heads[h])
    requires forall g | g in lru :: !Holds(heads[g], heads[h].dev, heads[h].block)
    ensures Placed(hash, heads, chains[k := [h] + chains[k]], free, [h] + lru, NIL)
  {
  }

  lemma PlacedPop(hash: (int, nat) -> nat, heads: seq<Head>, chains: seq<seq<int>>, free: seq<int>, lru: seq<int>)
    requires Placed(hash, heads, chains, free, lru, NIL) && free != [] && Distinct(free)
    ensures Placed(hash, heads, chains, free[1..], lru, free[0])
  {
  }

  lemma PlacedPush(hash: (int, nat) -> nat, heads: seq<Head>, chains: seq<seq<int>>, free: seq<int>, lru: seq<int>,
                   h: nat)
    requires Placed(hash, heads, chains, free, lru, h) && h < |heads| && !heads[h].dirty
    ensures Placed(hash, heads, chains, [h] + free, lru, NIL)
  {
  }

  /** A free head may be cleared and put on the free list once more. */
  lemma PlacedAgain(hash: (int, nat) -> nat, heads: seq<Head>, chains: seq<seq<int>>, free: seq<int>, lru: seq<int>,
                    h: nat, x: Head)
    requires Placed(hash, heads, chains, free, lru, NIL) && h < |heads| && h in free && !x.dirty
    ensures Placed(hash, heads[h := x], chains, [h] + free, lru, NIL) && h !in lru
    ensures forall j {:trigger chains[j]} | 0 <= j < BUCKETS :: h !in chains[j]
  {
  }

  /** How many free heads below `n` carry device `d`. */
  ghost function FreeWith(heads: seq<Head>, free: seq<int>, d: int, n: nat): nat
    requires n <= |heads|
  {
    if n == 0 then 0 else FreeWith(heads, free, d, n - 1) + if n - 1 in free && heads[n - 1].dev == d then 1 else 0
  }

  lemma {:induction false} NoneFreeWith(heads: seq<Head>, free: seq<int>, d: int, n: nat)
    requires n <= |heads|
    ensures FreeWith(heads, free, d, n) == 0 <==> forall h | 0 <= h < n && h in free :: heads[h].dev != d
  {
    if n > 0 {
      NoneFreeWith(heads, free, d, n - 1);
    }
  }

  /** What the invariants say of one head. */
  lemma HeadFacts(hash: (int, nat) -> nat, heads: seq<Head>, chains: seq<seq<int>>, free: seq<int>, lru: seq<int>,
                  disks: Disks, view: Disks, h: nat)
    requires Placed(hash, heads, chains, free, lru, NIL) && Coherent(heads, lru, disks, view, NIL) && h < |heads|
    ensures Inside(lru, |heads|) && |chains| == BUCKETS && view.Keys == disks.Keys
    ensures h in free <==> h !in lru
    ensures heads[h].dirty ==> h in lru
    ensures h in lru ==> && heads[h].dev != NIL && heads[h].dev in disks
                         && heads[h].block < |disks[heads[h].dev]| == |view[heads[h].dev]|
                         && heads[h].data == view[heads[h].dev][heads[h].block]
                         && Bucketed(hash, heads, chains, h)
                         && (forall g | g in lru && g != h :: !Holds(heads[g], heads[h].dev, heads[h].block))
  {
  }

  lemma FreeClean(hash: (int, nat) -> nat, heads: seq<Head>, chains: seq<seq<int>>, free: seq<int>, lru: seq<int>)
    requires Placed(hash, heads, chains, free, lru, NIL)
    ensures forall h | h in free :: 0 <= h < |heads| && !heads[h].dirty
  {
  }

  lemma LooseFacts(hash: (int, nat) -> nat, heads: seq<Head>, chains: seq<seq<int>>, free: seq<int>, lru: seq<int>,
                   h: int)
    requires Placed(hash, heads, chains, free, lru, h)
    ensures h !in free && h !in lru && |chains| == BUCKETS && Inside(lru, |heads|)
  {
  }

  lemma SomewhereOf(hash: (int, nat) -> nat, heads: seq<Head>, chains: seq<seq<int>>, free: seq<int>, lru: seq<int>)
    requires Placed(hash, heads, chains, free, lru, NIL)
    ensures |heads| > 0 ==> 0 in free || 0 in lru
  {
  }

  /** A head as it is on the free list. */
  function Blank(data: seq<byte>): Head { Head(NIL, 0, data, false, false, false, false, 0) }

  ghost predicate NoneCarries(heads: seq<Head>, free: seq<int>, d: int) {
    forall h | 0 <= h < |heads| && h in free :: heads[h].dev != d
  }

  /** Sweeping a device out of the cache has come to head `i`: the heads from there on are as they were; of those
      before, the device's are cleared. */
  ghost predicate Swept(hs: seq<Head>, fr: seq<int>, i: nat, d: int, heads: seq<Head>, free: seq<int>) {
    && |heads| == |hs|
    && (forall h | 0 <= h < |hs| && h < i ::
          heads[h] == if hs[h].dev == d then Head(NIL, 0, hs[h].data, false, false, false, false, 0) else hs[h])
    && forall h | i <= h < |hs| :: heads[h] == hs[h] && (h in free <==> h in fr)
  }

  lemma SweptNone(hs: seq<Head>, fr: seq<int>, d: int)
    ensures Swept(hs, fr, 0, d, hs, fr) && FreeWith(hs, fr, d, 0) == 0
  {
  }

  lemma SweptAt(hs: seq<Head>, fr: seq<int>, i: nat, d: int, heads: seq<Head>, free: seq<int>)
    requires Swept(hs, fr, i, d, heads, free) && i < |heads|
    ensures |heads| == |hs| && heads[i] == hs[i] && (i in free <==> i in fr)
    ensures FreeWith(hs, fr, d, i + 1) == FreeWith(hs, fr, d, i) + if i in fr && hs[i].dev == d then 1 else 0
  {
  }

  /** Head `i` was cleared and pushed if it carried the device; nothing happened if not. */
  lemma SweptMore(hs: seq<Head>, fr: seq<int>, i: nat, d: int, was: seq<Head>, list: seq<int>, heads: seq<Head>,
                  free: seq<int>)
    requires Swept(hs, fr, i, d, was, list) && i < |hs|
    requires if hs[i].dev == d
             then && heads == was[i := Head(NIL, 0, was[i].data, false, false, false, false, 0)]
                  && free == [i as int] + list
             else heads == was && free == list
    ensures Swept(hs, fr, i + 1, d, heads, free)
  {
  }

  lemma SweptAll(hs: seq<Head>, fr: seq<int>, d: int, heads: seq<Head>, free: seq<int>)
    requires Swept(hs, fr, |hs|, d, heads, free)
    ensures |heads| == |hs|
    ensures forall h | 0 <= h < |heads| ::
              heads[h] == if hs[h].dev == d then Head(NIL, 0, hs[h].data, false, false, false, false, 0) else hs[h]
  {
  }

  /** The free list is one, or the links from its head close on themselves among free heads. */
  ghost predicate FreeList(next: seq<int>, first: int, free: seq<int>, p: seq<int>, sound: bool) {
    if sound then Chain(next, first, free) else Lasso(next, first, p) && forall x | x in p :: x in free
  }

  lemma FreeListIff(next: seq<int>, first: int, free: seq<int>, p: seq<int>, sound: bool)
    requires FreeList(next, first, free, p, sound)
    ensures IsList(next, first) <==> sound
    ensures Chain(next, first, free) <==> sound
  {
    if !sound {
      LassoIsNoList(next, first, p);
    }
  }

  /** Head `i` is pushed on the free list, on which it may be already, after cached heads were relinked. */
  lemma FreeListPush(next: seq<int>, first: int, free: seq<int>, p: seq<int>, sound: bool, lru: seq<int>, i: nat,
                     next': seq<int>) returns (q: seq<int>)
    requires FreeList(next, first, free, p, sound) && i < |next| == |next'| && next'[i] == first
    requires forall x | x in free :: x !in lru
    requires forall x | 0 <= x < |next| && x !in lru && x != i :: next'[x] == next[x]
    ensures FreeList(next', i, [i] + free, q, sound && i !in free)
  {
    hide Chain, Lasso;
    if sound {
      PushOnList(next, first, free, i, next');
      if i in free {
        DistinctOf(next, first, free);
        return Pushed(free, i);
      }
      return [];
    }
    PushOnLasso(next, first, p, i, next');
    DistinctPath(next, first, p);
    return Pushed(p, i);
  }

  lemma DistinctOf(next: seq<int>, first: int, l: seq<int>)
    requires Chain(next, first, l)
    ensures Distinct(l)
  {
  }

  lemma DistinctPath(next: seq<int>, first: int, p: seq<int>)
    requires Lasso(next, first, p)
    ensures Distinct(p)
  {
  }

  // ----- wiring -----

  lemma FreeFacts(hashNext: seq<int>, buckets: seq<int>, freeHead: int, chains: seq<seq<int>>, free: seq<int>)
    requires Wired(hashNext, buckets, freeHead, chains, free)
    ensures Distinct(free) && Inside(free, |hashNext|) && freeHead == (if free == [] then NIL else free[0])
  {
  }

  /** The lists threaded through the shared link field have no node in common. */
  ghost predicate Separate(chains: seq<seq<int>>, free: seq<int>) {
    && (forall k, j, x {:trigger x in chains[k], x in chains[j]} | 0 <= k < |chains| && 0 <= j < |chains| && k != j
          && x in chains[k] :: x !in chains[j])
    && (forall k, x {:trigger x in chains[k]} | 0 <= k < |chains| && x in chains[k] :: x !in free)
  }

  lemma PlacedSeparate(hash: (int, nat) -> nat, heads: seq<Head>, chains: seq<seq<int>>, free: seq<int>, lru: seq<int>,
                       loose: int)
    requires Placed(hash, heads, chains, free, lru, loose)
    ensures Separate(chains, free)
    ensures forall k {:trigger chains[k]} | 0 <= k < BUCKETS :: loose !in chains[k]
  {
  }

  lemma WiredPush(hashNext: seq<int>, buckets: seq<int>, freeHead: int, chains: seq<seq<int>>, free: seq<int>,
                  k: nat, h: nat)
    requires Wired(hashNext, buckets, freeHead, chains, free) && k < BUCKETS && h < |hashNext| && h !in free
    requires forall j {:trigger chains[j]} | 0 <= j < BUCKETS :: h !in chains[j]
    ensures Wired(hashNext[h := buckets[k]], buckets[k := h], freeHead, chains[k := [h] + chains[k]], free)
  {
  }

  lemma HungUnlink(hashNext: seq<int>, buckets: seq<int>, chains: seq<seq<int>>, free: seq<int>, k: nat, i: nat)
    requires Hung(hashNext, buckets, chains) && Separate(chains, free)
    requires k < BUCKETS && i < |chains[k]|
    ensures var h := chains[k][i];
            && 0 <= h < |hashNext| && (i > 0 ==> 0 <= chains[k][i - 1] < |hashNext|)
            && var cut := if i == 0 then hashNext else hashNext[chains[k][i - 1] := hashNext[h]];
               && Hung(cut[h := NIL], if i == 0 then buckets[k := hashNext[h]] else buckets,
                       chains[k := Cut(chains[k], i)])
               && forall x | 0 <= x < |hashNext| && x !in chains[k] :: cut[h := NIL][x] == hashNext[x]
  {
    var l := chains[k];
    var h := l[i];
    var cut := if i == 0 then hashNext else hashNext[l[i - 1] := hashNext[h]];
    ChainUnlink(hashNext, buckets[k], l, i);
    assert h in l && (i > 0 ==> l[i - 1] in l);
    forall j | 0 <= j < BUCKETS && j != k
      ensures Chain(cut[h := NIL], buckets[j], chains[j])
    {
      ChainFrame(hashNext, cut[h := NIL], buckets[j], chains[j]);
    }
  }

  /** Links of heads in no bucket do not matter to the buckets. */
  lemma HungFrame(hashNext: seq<int>, buckets: seq<int>, chains: seq<seq<int>>, h: nat, v: int)
    requires Hung(hashNext, buckets, chains) && h < |hashNext|
    requires forall j {:trigger chains[j]} | 0 <= j < BUCKETS :: h !in chains[j]
    ensures Hung(hashNext[h := v], buckets, chains)
  {
    forall j | 0 <= j < BUCKETS
      ensures Chain(hashNext[h := v], buckets[j], chains[j])
    {
      ChainFrame(hashNext, hashNext[h := v], buckets[j], chains[j]);
    }
  }

  lemma WiredFreePop(hashNext: seq<int>, buckets: seq<int>, freeHead: int, chains: seq<seq<int>>, free: seq<int>)
    requires Wired(hashNext, buckets, freeHead, chains, free) && Separate(chains, free) && free != []
    ensures 0 <= freeHead < |hashNext| && freeHead == free[0]
    ensures Wired(hashNext[freeHead := NIL], buckets, hashNext[freeHead], chains, free[1..])
  {
    ChainPop(hashNext, freeHead, free);
    forall j | 0 <= j < BUCKETS
      ensures Chain(hashNext[freeHead := NIL], buckets[j], chains[j])
    {
      assert freeHead in free;
      ChainFrame(hashNext, hashNext[freeHead := NIL], buckets[j], chains[j]);
    }
  }

  lemma WiredFreePush(hashNext: seq<int>, buckets: seq<int>, freeHead: int, chains: seq<seq<int>>, free: seq<int>,
                      h: nat)
    requires Wired(hashNext, buckets, freeHead, chains, free) && h < |hashNext| && h !in free
    requires forall j {:trigger chains[j]} | 0 <= j < BUCKETS :: h !in chains[j]
    ensures Wired(hashNext[h := freeHead], buckets, h, chains, [h] + free)
  {
  }

  // ----- coherence -----

  lemma KeysOf(heads: seq<Head>, lru: seq<int>, disks: Disks, view: Disks, stale: int)
    requires Inside(lru, |heads|) && Coherent(heads, lru, disks, view, stale)
    ensures view.Keys == disks.Keys && (forall d | d in disks :: |view[d]| == |disks[d]|)
    ensures Formatted(disks) && Formatted(view)
  {
  }

  lemma CoherentReorder(heads: seq<Head>, lru: seq<int>, disks: Disks, view: Disks, stale: int, lru': seq<int>)
    requires Inside(lru, |heads|) && Coherent(heads, lru, disks, view, stale) && Inside(lru', |heads|)
    requires forall h :: h in lru' <==> h in lru
    ensures Coherent(heads, lru', disks, view, stale)
  {
  }

  /** Flags and counts do not matter, as long as dirtiness, key and bytes stay. */
  lemma CoherentFlags(heads: seq<Head>, lru: seq<int>, disks: Disks, view: Disks, stale: int, h: nat, x: Head)
    requires Inside(lru, |heads|) && Coherent(heads, lru, disks, view, stale) && h < |heads|
    requires h in lru ==> x.dev == heads[h].dev && x.block == heads[h].block && x.data == heads[h].data
                          && x.dirty == heads[h].dirty
    ensures Coherent(heads[h := x], lru, disks, view, stale)
  {
  }

  /** Writing a head back brings the device up to date under it. */
  lemma CoherentSync(heads: seq<Head>, lru: seq<int>, disks: Disks, view: Disks, h: nat)
    requires Inside(lru, |heads|) && Coherent(heads, lru, disks, view, NIL) && h in lru
    requires forall g | g in lru && g != h :: !Holds(heads[g], heads[h].dev, heads[h].block)
    ensures heads[h].dev in disks && heads[h].block < |disks[heads[h].dev]|
    ensures var x := heads[h];
            var disks' := disks[x.dev := disks[x.dev][x.block := x.data]];
            && Coherent(heads[h := x.(dirty := false)], lru, disks', view, NIL)
            && disks'[x.dev][x.block] == view[x.dev][x.block]
  {
  }

  /** A clean head can be dropped from the cache, whatever it is used for next. */
  lemma CoherentDrop(heads: seq<Head>, lru: seq<int>, disks: Disks, view: Disks, h: nat, lru': seq<int>, x: Head)
    requires Inside(lru, |heads|) && Coherent(heads, lru, disks, view, NIL) && h in lru && !heads[h].dirty
    requires Inside(lru', |heads|) && (forall g :: g in lru' <==> g in lru && g != h)
    ensures Coherent(heads[h := x], lru', disks, view, NIL)
  {
  }

  /** A head enters the cache: with the block's bytes, or, announced as stale, with any bytes. */
  lemma CoherentAdmit(heads: seq<Head>, lru: seq<int>, disks: Disks, view: Disks, h: nat, stale: int)
    requires Inside(lru, |heads|) && Coherent(heads, lru, disks, view, NIL) && h < |heads| && h !in lru
    requires heads[h].dev in disks && heads[h].block < |disks[heads[h].dev]| && |heads[h].data| == BLOCK_SIZE
    requires stale == h || (stale == NIL && heads[h].data == view[heads[h].dev][heads[h].block])
    ensures Coherent(heads, [h] + lru, disks, view, stale)
  {
  }

  /** Storing new bytes in a head and marking it dirty writes that block of the flat disk, and no other. */
  lemma CoherentStore(heads: seq<Head>, lru: seq<int>, disks: Disks, view: Disks, h: nat, stale: int, bytes: seq<byte>)
    requires Inside(lru, |heads|) && Coherent(heads, lru, disks, view, stale) && h in lru && |bytes| == BLOCK_SIZE
    requires stale == NIL || stale == h
    requires forall g | g in lru && g != h :: !Holds(heads[g], heads[h].dev, heads[h].block)
    ensures var x := heads[h];
            && x.dev in view && x.block < |view[x.dev]|
            && Coherent(heads[h := x.(data := bytes, dirty := true)], lru, disks,
                        view[x.dev := view[x.dev][x.block := bytes]], NIL)
  {
  }

  /** With no dirty head of a device left, the device equals the flat disk. */
  lemma CleanMeansSynced(heads: seq<Head>, lru: seq<int>, disks: Disks, view: Disks, d: int)
    requires Inside(lru, |heads|) && Coherent(heads, lru, disks, view, NIL) && d in disks
    requires forall h | h in lru && heads[h].dev == d :: !heads[h].dirty
    ensures view[d] == disks[d]
  {
  }

  /** A head that is up to date may be announced as about to be overwritten. */
  lemma MoreStale(heads: seq<Head>, lru: seq<int>, disks: Disks, view: Disks, h: int)
    requires Inside(lru, |heads|) && Coherent(heads, lru, disks, view, NIL)
    ensures Coherent(heads, lru, disks, view, h)
  {
  }

  lemma StaleFacts(hash: (int, nat) -> nat, heads: seq<Head>, chains: seq<seq<int>>, free: seq<int>, lru: seq<int>,
                   disks: Disks, view: Disks, stale: int, h: nat)
    requires Placed(hash, heads, chains, free, lru, NIL) && Coherent(heads, lru, disks, view, stale) && h in lru
    ensures h < |heads| && h !in free && heads[h].dev in view && heads[h].block < |view[heads[h].dev]|
    ensures |heads[h].data| == |view[heads[h].dev][heads[h].block]| == BLOCK_SIZE
    ensures h != stale ==> heads[h].data == view[heads[h].dev][heads[h].block]
    ensures forall g | g in lru && g != h :: 0 <= g < |heads| && !Holds(heads[g], heads[h].dev, heads[h].block)
  {
  }
}
