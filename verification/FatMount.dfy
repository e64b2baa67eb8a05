/** The mount's allocation state: walking chains, finding free clusters, growing and freeing chains. */
module FatMount {
  import opened Bytes
  import opened FatLayout
  import opened FatVolume
  import opened FatChains

  const UNKNOWN: nat := 0xFFFF_FFFF

  class Mount {
    const vol: Volume
    var nextFree: nat
    var freeCount: nat

    constructor (v: Volume, hint: nat, count: nat)
      requires v.Ready() && hint <= v.geo.Total() && count < TWO32
      ensures vol == v && nextFree == hint && freeCount == count && Valid()
    {
      vol := v;
      nextFree := hint;
      freeCount := count;
    }

    ghost predicate Valid()
      reads this, vol, vol.cache
    {
      vol.Ready() && nextFree <= vol.geo.Total() && freeCount < TWO32
    }

    /** A known free count equals the number of free table entries. */
    ghost predicate Counted()
      reads this, vol
    {
      freeCount == UNKNOWN || freeCount == FreeTotal(vol.fat)
    }

    /** The cluster `n` links behind `start`, or 0 past the end of the chain. */
    method FollowChain(start: nat, n: nat, ghost ch: seq<nat>) returns (c: nat)
      requires Valid() && IsChain(vol.fat, ch) && ch[0] == start
      modifies vol.cache
      ensures Valid()
      ensures c == if n < |ch| then ch[n] else 0
    {
      var cur: nat := start;
      var i := 0;
      while i < n
        invariant Valid() && i <= n && i < |ch| && cur == ch[i]
      {
        cur := vol.FatRead(cur);
        if cur == 0 || IsEoc(cur) || cur == BAD {
          return 0;
        }
        i := i + 1;
      }
      return cur;
    }

    /** The walk to a file position that reads, writes and directory updates share: 0 past the end. */
    method Walk(start: nat, n: nat, ghost ch: seq<nat>) returns (c: nat)
      requires Valid() && IsChain(vol.fat, ch) && ch[0] == start
      modifies vol.cache
      ensures Valid()
      ensures c == if n < |ch| then ch[n] else 0
    {
      c := start;
      var i := 0;
      while i < n
        invariant Valid() && i <= n && i < |ch| && c == ch[i]
      {
        c := vol.FatRead(c);
        if c == 0 || IsEoc(c) {
          return 0;
        }
        i := i + 1;
      }
    }

    /** The loop ends at the end mark; the count never passes the number of data clusters. */
    method ChainLength(start: nat, ghost ch: seq<nat>) returns (count: nat)
      requires Valid()
      requires start < FIRST || (IsChain(vol.fat, ch) && ch[0] == start)
      modifies vol.cache
      ensures Valid()
      ensures count == if start < FIRST then 0 else |ch|
      ensures count <= vol.geo.clusters
    {
      if start >= FIRST { ChainFits(vol.fat, ch); }
      count := 0;
      var cur: nat := start;
      while cur >= FIRST && !IsEoc(cur) && cur != BAD
        invariant Valid()
        invariant start < FIRST ==> cur == start && count == 0
        invariant start >= FIRST ==> count <= |ch| <= vol.geo.clusters
        invariant start >= FIRST && count < |ch| ==> cur == ch[count]
        invariant start >= FIRST && count == |ch| ==> IsEoc(cur)
        decreases |ch| - count
      {
        count := count + 1;
        cur := vol.FatRead(cur);
        if cur == 0 { break; }
        if count > vol.geo.clusters { break; }
      }
    }

    /** The cluster that carries the end mark. */
    method LastCluster(start: nat, ghost ch: seq<nat>) returns (last: nat)
      requires Valid() && IsChain(vol.fat, ch) && ch[0] == start
      modifies vol.cache
      ensures Valid()
      ensures last == ch[|ch| - 1]
    {
      last := start;
      var next := vol.FatRead(last);
      ghost var i := 0;
      while next >= FIRST && !IsEoc(next)
        invariant Valid() && 0 <= i < |ch| && last == ch[i] && next == vol.fat[last]
        decreases |ch| - i
      {
        last := next;
        next := vol.FatRead(last);
        i := i + 1;
      }
    }

    /** Takes the first free cluster in scan order, marks it as an end of chain; 0 exactly when none is free. */
    method AllocCluster() returns (c: nat)
      requires Valid() && vol.geo.clusters > 0
      modifies this, vol, vol.cache
      ensures Valid() && (old(Counted()) ==> Counted())
      ensures vol.data == old(vol.data)
      ensures c == 0 <==> forall d | FIRST <= d < vol.geo.Total() :: old(vol.fat)[d] != FREE
      ensures c == 0 ==> vol.fat == old(vol.fat) && nextFree == old(nextFree) && freeCount == old(freeCount)
      ensures c != 0 ==> FIRST <= c < vol.geo.Total() && old(vol.fat)[c] == FREE
      ensures c != 0 ==> vol.fat == old(vol.fat)[c := EOC] && nextFree == c + 1
      ensures c != 0 ==> forall j | 0 <= j < StepOf(old(nextFree), c, vol.geo.Total()) ::
                old(vol.fat)[Candidate(old(nextFree), j, vol.geo.Total())] != FREE
    {
      var total := vol.geo.Total();
      ghost var fat := vol.fat;
      var hint := nextFree;
      ScanOnce(hint, total);
      var i := 0;
      while i < vol.geo.clusters
        invariant 0 <= i <= vol.geo.clusters
        invariant Valid() && unchanged(this) && unchanged(vol)
        invariant forall j | 0 <= j < i :: fat[Candidate(hint, j, total)] != FREE
      {
        var candidate := Candidate(hint, i, total);
        var entry := vol.FatRead(candidate);
        if entry == FREE {
          vol.FatWrite(candidate, EOC);
          FreeAfterUpdate(fat, |fat|, candidate, EOC);
          SomeFree(fat, |fat|, candidate);
          nextFree := candidate + 1;
          if freeCount != UNKNOWN && freeCount > 0 {
            freeCount := freeCount - 1;
          }
          return candidate;
        }
        i := i + 1;
      }
      forall d | FIRST <= d < total
        ensures fat[d] != FREE
      {
        assert Candidate(hint, StepOf(hint, d, total), total) == d;
      }
      return 0;
    }

    /** Allocates a cluster and links `last` to it; nothing changes when the volume is full. */
    method ExtendChain(last: nat) returns (c: nat)
      requires Valid() && FIRST <= last < vol.geo.Total() && vol.fat[last] != FREE
      modifies this, vol, vol.cache
      ensures Valid() && (old(Counted()) ==> Counted())
      ensures vol.data == old(vol.data)
      ensures c == 0 <==> forall d | FIRST <= d < vol.geo.Total() :: old(vol.fat)[d] != FREE
      ensures c == 0 ==> vol.fat == old(vol.fat)
      ensures c != 0 ==> FIRST <= c < vol.geo.Total() && old(vol.fat)[c] == FREE
      ensures c != 0 ==> vol.fat == old(vol.fat)[c := EOC][last := c]
    {
      c := AllocCluster();
      if c == 0 {
        return 0;
      }
      ghost var fat := vol.fat;
      vol.FatWrite(last, c);
      FreeAfterUpdate(fat, |fat|, last, c);
    }

    /** Frees the chain's cluster `i` and returns the one linked behind it. */
    method FreeOne(cur: nat, ghost fat: seq<nat>, ghost ch: seq<nat>, ghost i: nat) returns (next: nat)
      requires Valid() && IsChain(fat, ch) && i < |ch| && cur == ch[i] && vol.fat == Cleared(fat, ch[..i])
      modifies this, vol, vol.cache
      ensures Valid() && nextFree == old(nextFree)
      ensures next == fat[cur] && vol.fat == Cleared(fat, ch[..i + 1]) && vol.data == old(vol.data)
      ensures old(Counted()) ==> Counted()
    {
      ghost var now := vol.fat;
      assert cur !in ch[..i];
      next := vol.FatRead(cur);
      vol.FatWrite(cur, FREE);
      FreeAfterUpdate(now, |now|, cur, FREE);
      ClearNext(fat, ch, i);
      ChainAt(fat, ch, i);
      if freeCount != UNKNOWN {
        freeCount := freeCount + 1;
      }
    }

    /** Frees every cluster of the chain and no other; the loop guard never fires. */
    method FreeChain(start: nat, ghost ch: seq<nat>)
      requires Valid()
      requires if start < FIRST then ch == [] else IsChain(vol.fat, ch) && ch[0] == start
      modifies this, vol, vol.cache
      ensures Valid() && nextFree == old(nextFree)
      ensures old(Counted()) ==> Counted()
      ensures vol.data == old(vol.data)
      ensures vol.fat == Cleared(old(vol.fat), ch)
    {
      hide IsChain, Cleared, Counted;
      ghost var fat := vol.fat;
      if start >= FIRST { ChainFits(fat, ch); ChainAt(fat, ch, 0); }
      var cur: nat := start;
      var safety := 0;
      ClearNone(fat, ch);
      while cur >= FIRST && !IsEoc(cur) && cur != BAD
        invariant Valid() && nextFree == old(nextFree)
        invariant 0 <= safety <= |ch| <= vol.geo.clusters
        invariant start < FIRST ==> cur == start && ch == []
        invariant start >= FIRST && safety < |ch| ==> cur == ch[safety]
        invariant start >= FIRST && safety == |ch| ==> IsEoc(cur)
        invariant vol.fat == Cleared(fat, ch[..safety])
        invariant vol.data == old(vol.data)
        invariant old(Counted()) ==> Counted()
        decreases |ch| - safety
      {
        ChainAt(fat, ch, safety);
        var next := FreeOne(cur, fat, ch, safety);
        cur := next;
        safety := safety + 1;
        if safety > vol.geo.clusters { break; }
      }
      if safety < |ch| { ChainAt(fat, ch, safety); }
    }
  }

  lemma ClearNone(fat: seq<nat>, ch: seq<nat>)
    ensures Cleared(fat, ch[..0]) == fat && ch[..|ch|] == ch
  {
  }

  lemma ClearNext(fat: seq<nat>, ch: seq<nat>, i: nat)
    requires IsChain(fat, ch) && i < |ch|
    ensures Cleared(fat, ch[..i])[ch[i] := FREE] == Cleared(fat, ch[..i + 1])
  {
  }
}
