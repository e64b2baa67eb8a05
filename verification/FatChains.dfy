/** Cluster chains over an allocation table: what a chain is, who owns which clusters, how a chain's clusters
    form one flat byte sequence, and how free entries are counted and searched for. */
module FatChains {
  import opened Bytes
  import opened FatLayout

  // ----- chains -----

  /** The links of `ch`: distinct data clusters, each pointing to the next, the last one marked end-of-chain. */
  ghost predicate IsChain(fat: seq<nat>, ch: seq<nat>) {
    && |ch| > 0
    && (forall i | 0 <= i < |ch| :: FIRST <= ch[i] < |fat|)
    && (forall i, j | 0 <= i < j < |ch| :: ch[i] != ch[j])
    && (forall i {:trigger fat[ch[i]]} | 0 <= i < |ch| - 1 :: fat[ch[i]] == ch[i + 1])
    && fat[ch[|ch| - 1]] % 0x1000_0000 >= 0xFFF_FFF8
  }

  /** Every owner has no cluster at all or one chain, and no cluster belongs to two owners. */
  ghost predicate Owned(fat: seq<nat>, chains: map<nat, seq<nat>>) {
    && (forall o | o in chains && chains[o] != [] :: IsChain(fat, chains[o]))
    && (forall o, p | o in chains && p in chains && o != p :: Apart(chains[o], chains[p]))
  }

  ghost predicate Apart(a: seq<nat>, b: seq<nat>) {
    forall c | c in a :: c !in b
  }

  /** A chain never has more links than there are data clusters, so the loop guards of the walkers never fire. */
  lemma ChainFits(fat: seq<nat>, ch: seq<nat>)
    requires IsChain(fat, ch)
    ensures 0 < |ch| <= |fat| - FIRST
  {
    Distinct(ch);
    SubsetSize(Members(ch), Between(FIRST, |fat|));
  }

  ghost function Members(ch: seq<nat>): (s: set<nat>)
    ensures forall c :: c in s <==> c in ch
  {
    set c | c in ch
  }

  ghost function Between(lo: nat, hi: nat): (s: set<nat>)
    requires lo <= hi
    ensures forall c :: c in s <==> lo <= c < hi
    ensures |s| == hi - lo
  {
    if lo == hi then {} else Between(lo, hi - 1) + {hi - 1}
  }

  lemma {:induction false} Distinct(ch: seq<nat>)
    requires forall i, j | 0 <= i < j < |ch| :: ch[i] != ch[j]
    ensures |Members(ch)| == |ch|
  {
    if |ch| > 0 {
      var h, x := ch[..|ch| - 1], ch[|ch| - 1];
      Distinct(h);
      assert ch == h + [x];
      assert Members(ch) == Members(h) + {x};
    }
  }

  lemma {:induction false} SubsetSize<T>(s: set<T>, t: set<T>)
    requires s <= t
    ensures |s| <= |t|
  {
    if s != {} {
      var x :| x in s;
      SubsetSize(s - {x}, t - {x});
    }
  }

  /** What link `i` of a chain is and where it leads. */
  lemma ChainAt(fat: seq<nat>, ch: seq<nat>, i: nat)
    requires IsChain(fat, ch) && i < |ch| && |fat| <= BAD
    ensures FIRST <= ch[i] < |fat| && !IsEoc(ch[i]) && ch[i] != BAD
    ensures fat[ch[i]] != FREE
    ensures if i + 1 < |ch| then fat[ch[i]] == ch[i + 1] else IsEoc(fat[ch[i]])
  {
  }

  /** A free entry lies on no chain. */
  lemma FreeOffChain(fat: seq<nat>, ch: seq<nat>, c: nat)
    requires IsChain(fat, ch) && c < |fat| && fat[c] == FREE
    ensures c !in ch
  {
  }

  /** Marking a free entry as a new end and linking the old end to it lengthens the chain by that cluster. */
  lemma Append(fat: seq<nat>, ch: seq<nat>, c: nat)
    requires IsChain(fat, ch) && FIRST <= c < |fat| && fat[c] == FREE
    ensures IsChain(fat[c := EOC][ch[|ch| - 1] := c], ch + [c])
  {
  }

  /** A chain survives any change of entries it does not use. */
  lemma KeepChain(fat: seq<nat>, fat': seq<nat>, ch: seq<nat>)
    requires IsChain(fat, ch) && |fat'| == |fat|
    requires forall c | c in ch :: c < |fat| ==> fat'[c] == fat[c]
    ensures IsChain(fat', ch)
  {
  }

  /** What freeing a chain leaves behind. */
  ghost function Cleared(fat: seq<nat>, ch: seq<nat>): (r: seq<nat>)
    ensures |r| == |fat|
  {
    seq(|fat|, c requires 0 <= c < |fat| => if c in ch then FREE else fat[c])
  }

  /** Appending to one owner's chain leaves all owners well formed and apart. */
  lemma OwnedAppend(fat: seq<nat>, chains: map<nat, seq<nat>>, o: nat, c: nat)
    requires Owned(fat, chains) && o in chains && chains[o] != []
    requires FIRST <= c < |fat| && fat[c] == FREE
    ensures var ch := chains[o];
            Owned(fat[c := EOC][ch[|ch| - 1] := c], chains[o := ch + [c]])
  {
    var ch := chains[o];
    var last := ch[|ch| - 1];
    var fat' := fat[c := EOC][last := c];
    Append(fat, ch, c);
    assert last in ch;
    forall p | p in chains && p != o && chains[p] != []
      ensures IsChain(fat', chains[p]) && c !in chains[p]
    {
      FreeOffChain(fat, chains[p], c);
      assert Apart(ch, chains[p]);
      KeepChain(fat, fat', chains[p]);
    }
  }

  /** Giving an owner without clusters its first one. */
  lemma OwnedFirst(fat: seq<nat>, chains: map<nat, seq<nat>>, o: nat, c: nat)
    requires Owned(fat, chains) && o in chains && chains[o] == []
    requires FIRST <= c < |fat| && fat[c] == FREE
    ensures Owned(fat[c := EOC], chains[o := [c]])
  {
    forall p | p in chains && p != o && chains[p] != []
      ensures IsChain(fat[c := EOC], chains[p]) && c !in chains[p]
    {
      FreeOffChain(fat, chains[p], c);
      KeepChain(fat, fat[c := EOC], chains[p]);
    }
  }

  /** Freeing one owner's chain leaves every other owner's chain in place. */
  lemma OwnedFree(fat: seq<nat>, chains: map<nat, seq<nat>>, o: nat)
    requires Owned(fat, chains) && o in chains
    ensures Owned(Cleared(fat, chains[o]), chains[o := []])
    ensures Owned(Cleared(fat, chains[o]), chains - {o})
  {
    var fat' := Cleared(fat, chains[o]);
    forall p | p in chains && p != o && chains[p] != []
      ensures IsChain(fat', chains[p])
    {
      assert Apart(chains[o], chains[p]);
      KeepChain(fat, fat', chains[p]);
    }
  }

  // ----- the flat bytes of a chain -----

  /** The clusters of the chain one behind the other. */
  ghost function Flat(data: seq<seq<byte>>, ch: seq<nat>): (r: seq<byte>)
    requires forall i | 0 <= i < |ch| :: ch[i] < |data|
  {
    if ch == [] then [] else Flat(data, ch[..|ch| - 1]) + data[ch[|ch| - 1]]
  }

  /** All clusters that `ch` names have `n` bytes. */
  ghost predicate Sized(data: seq<seq<byte>>, ch: seq<nat>, n: nat) {
    forall i | 0 <= i < |ch| :: ch[i] < |data| && |data[ch[i]]| == n
  }

  lemma {:induction false} FlatLength(data: seq<seq<byte>>, ch: seq<nat>, n: nat)
    requires Sized(data, ch, n)
    ensures |Flat(data, ch)| == |ch| * n
  {
    if |ch| > 0 {
      FlatLength(data, ch[..|ch| - 1], n);
      assert |ch| * n == (|ch| - 1) * n + n;
    }
  }

  /** Cluster `j` of the chain holds the flat bytes from j * n on. */
  lemma {:induction false} FlatAt(data: seq<seq<byte>>, ch: seq<nat>, n: nat, j: nat)
    requires Sized(data, ch, n) && j < |ch|
    ensures 0 <= j * n && j * n + n <= |Flat(data, ch)| == |ch| * n
    ensures Flat(data, ch)[j * n..j * n + n] == data[ch[j]]
    decreases |ch|
  {
    var m := |ch| - 1;
    var h := ch[..m];
    FlatLength(data, ch, n);
    FlatLength(data, h, n);
    NextCluster(j, |ch|, n);
    var f, g, o := Flat(data, ch), Flat(data, h), j * n;
    assert f == g + data[ch[m]];
    if j < m {
      FlatAt(data, h, n, j);
      assert f[o..o + n] == g[o..o + n];
    } else {
      assert o == |g|;
    }
  }

  /** Rewriting cluster `j` of a chain overlays the flat bytes at j * n. */
  lemma FlatPut(data: seq<seq<byte>>, ch: seq<nat>, n: nat, j: nat, buf: seq<byte>)
    requires Sized(data, ch, n) && j < |ch| && |buf| == n
    requires forall a, b | 0 <= a < b < |ch| :: ch[a] != ch[b]
    ensures 0 <= j * n && j * n + n <= |Flat(data, ch)|
    ensures Flat(data[ch[j] := buf], ch) == Overlay(Flat(data, ch), j * n, buf)
  {
    hide Flat, Overlay;
    FlatLength(data, ch[..j], n);
    FlatPutAt(data, ch, n, j, buf, |Flat(data, ch[..j])|);
  }

  /** The same by the length of what lies before the cluster. */
  lemma {:induction false} FlatPutAt(data: seq<seq<byte>>, ch: seq<nat>, n: nat, j: nat, buf: seq<byte>, o: nat)
    requires Sized(data, ch, n) && j < |ch| && |buf| == n && o == |Flat(data, ch[..j])|
    requires forall a, b | 0 <= a < b < |ch| :: ch[a] != ch[b]
    ensures o + n <= |Flat(data, ch)| && Flat(data[ch[j] := buf], ch) == Overlay(Flat(data, ch), o, buf)
    decreases |ch|
  {
    hide Overlay;
    var m := |ch| - 1;
    var h := ch[..m];
    var data' := data[ch[j] := buf];
    var g := Flat(data, h);
    assert Flat(data, ch) == g + data[ch[m]] && Flat(data', ch) == Flat(data', h) + data'[ch[m]];
    if j < m {
      assert h[..j] == ch[..j];
      FlatPutAt(data, h, n, j, buf, o);
      OverlayBefore(g, o, buf, data[ch[m]]);
    } else {
      FlatFrame(data, data', h);
      OverlayLast(g, data[ch[m]], buf);
    }
  }

  lemma OverlayBefore(g: seq<byte>, o: nat, buf: seq<byte>, t: seq<byte>)
    requires o + |buf| <= |g|
    ensures Overlay(g, o, buf) + t == Overlay(g + t, o, buf)
  {
  }

  lemma OverlayLast(g: seq<byte>, t: seq<byte>, buf: seq<byte>)
    requires |buf| == |t|
    ensures g + buf == Overlay(g + t, |g|, buf)
  {
  }

  /** Chains that do not use the changed clusters keep their bytes. */
  lemma {:induction false} FlatFrame(data: seq<seq<byte>>, data': seq<seq<byte>>, ch: seq<nat>)
    requires |data'| == |data|
    requires forall i | 0 <= i < |ch| :: ch[i] < |data| && data'[ch[i]] == data[ch[i]]
    ensures Flat(data', ch) == Flat(data, ch)
  {
    if |ch| > 0 {
      FlatFrame(data, data', ch[..|ch| - 1]);
    }
  }

  // ----- free entries -----

  /** How many data clusters below `hi` are free. */
  ghost function FreeBelow(fat: seq<nat>, hi: nat): (n: nat)
    requires hi <= |fat|
    ensures n <= hi
  {
    if hi <= FIRST then 0
    else FreeBelow(fat, hi - 1) + if fat[hi - 1] == FREE then 1 else 0
  }

  ghost function FreeTotal(fat: seq<nat>): (n: nat)
    ensures n <= |fat|
  {
    FreeBelow(fat, |fat|)
  }

  lemma {:induction false} FreeAfterUpdate(fat: seq<nat>, hi: nat, c: nat, v: nat)
    requires FIRST <= c < |fat| && hi <= |fat|
    ensures FreeBelow(fat[c := v], hi) == FreeBelow(fat, hi)
            + if c < hi then (if v == FREE then 1 else 0) - (if fat[c] == FREE then 1 else 0) else 0
  {
    if hi > FIRST {
      FreeAfterUpdate(fat, hi - 1, c, v);
    }
  }

  lemma {:induction false} SomeFree(fat: seq<nat>, hi: nat, c: nat)
    requires FIRST <= c < hi <= |fat| && fat[c] == FREE
    ensures FreeBelow(fat, hi) > 0
  {
    if c < hi - 1 {
      SomeFree(fat, hi - 1, c);
    }
  }

  /** The cluster that step `i` of the allocator's scan looks at, in 32-bit arithmetic. */
  function Candidate(hint: nat, i: nat, total: nat): (c: nat)
    requires FIRST < total < TWO32
  {
    var start := if hint >= FIRST then hint else FIRST;
    var c := (start + i) % TWO32;
    if c >= total then FIRST + (c - total) else c
  }

  /** The step at which a scan from an in-range hint looks at `c`. */
  function StepOf(hint: nat, c: nat, total: nat): (i: nat)
    requires FIRST <= c < total && hint <= total
  {
    var start := if hint >= FIRST then hint else FIRST;
    if c >= start then c - start else total - start + (c - FIRST)
  }

  /** From a hint up to `total`, the steps below the cluster count and the data clusters correspond one to one. */
  lemma ScanOnce(hint: nat, total: nat)
    requires FIRST < total <= BAD && hint <= total
    ensures forall i | 0 <= i < total - FIRST ::
              FIRST <= Candidate(hint, i, total) < total && StepOf(hint, Candidate(hint, i, total), total) == i
    ensures forall c | FIRST <= c < total ::
              StepOf(hint, c, total) < total - FIRST && Candidate(hint, StepOf(hint, c, total), total) == c
  {
  }

  ghost predicate Visited(hint: nat, total: nat, c: nat)
    requires FIRST < total < TWO32
  {
    exists i :: 0 <= i < total - FIRST && Candidate(hint, i, total) == c
  }

  /** The scan looks at every data cluster exactly when the hint is at most one past the last cluster;
      a larger hint, which mounting accepts unchecked, makes it miss clusters. */
  lemma ScanCompleteIff(hint: nat, total: nat)
    requires FIRST < total <= BAD && hint < TWO32
    ensures (forall c | FIRST <= c < total :: Visited(hint, total, c)) <==> hint <= total
  {
    if hint <= total {
      ScanOnce(hint, total);
      forall c | FIRST <= c < total
        ensures Visited(hint, total, c)
      {
        assert Candidate(hint, StepOf(hint, c, total), total) == c;
      }
    } else {
      // a scan that starts past the end skips the first clusters, and one that wraps does not reach the last
      var missed := if hint + (total - FIRST) <= TWO32 then FIRST else total - 1;
      assert !Visited(hint, total, missed);
    }
  }
}
