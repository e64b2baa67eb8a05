/** The physical frame allocator: one bit per 4 KiB frame, set when the frame is free. */
module FrameAlloc {
  import opened Paging
  /** Frames below 1 MiB are never handed out. */
  const LOW_FRAMES: nat := 256

  function Mask(k: nat): bv8
    requires k < 8
  {
    if k == 0 then 1 else if k == 1 then 2 else if k == 2 then 4 else if k == 3 then 8
    else if k == 4 then 16 else if k == 5 then 32 else if k == 6 then 64 else 128
  }

  predicate BitOf(b: bv8, k: nat)
    requires k < 8
  {
    b & Mask(k) != 0
  }

  function WithBit(b: bv8, k: nat): bv8
    requires k < 8
  {
    b | Mask(k)
  }

  function WithoutBit(b: bv8, k: nat): bv8
    requires k < 8
  {
    b & !Mask(k)
  }

  /** Bit `i` of the bitmap. */
  predicate Bit(bitmap: seq<bv8>, i: nat)
    requires i < 8 * |bitmap|
  {
    BitOf(bitmap[i / 8], i % 8)
  }

  function Marking(bitmap: seq<bv8>, i: nat, free: bool): (r: seq<bv8>)
    requires i < 8 * |bitmap|
    ensures |r| == |bitmap|
  {
    bitmap[i / 8 := if free then WithBit(bitmap[i / 8], i % 8) else WithoutBit(bitmap[i / 8], i % 8)]
  }

  ghost function FreeSet(bitmap: seq<bv8>): (s: set<nat>)
  {
    set i: nat | i < 8 * |bitmap| && Bit(bitmap, i)
  }

  lemma MarkingBit(bitmap: seq<bv8>, i: nat, free: bool, j: nat)
    requires i < 8 * |bitmap| && j < 8 * |bitmap|
    ensures Bit(Marking(bitmap, i, free), j) <==> if j == i then free else Bit(bitmap, j)
  {
  }

  /** Setting or clearing one bit changes whether that one frame is free. */
  lemma MarkingSet(bitmap: seq<bv8>, i: nat, free: bool)
    requires i < 8 * |bitmap|
    ensures FreeSet(Marking(bitmap, i, free)) == if free then FreeSet(bitmap) + {i} else FreeSet(bitmap) - {i}
  {
    hide Bit, Marking;
    forall j: nat | j < 8 * |bitmap|
      ensures Bit(Marking(bitmap, i, free), j) <==> if j == i then free else Bit(bitmap, j)
    {
      MarkingBit(bitmap, i, free, j);
    }
  }

  /** A region of the boot loader's memory map. */
  datatype Region = Region(kind: nat, start: nat, count: nat)

  predicate Usable(r: Region) { r.kind == 7 || r.kind == 6 || r.kind == 5 }

  /** The frames that initialisation marks free, in order, one entry for each time it counts one. */
  function Marked(regions: seq<Region>, limit: nat): seq<nat> {
    if regions == [] then []
    else
      var r := regions[|regions| - 1];
      Marked(regions[..|regions| - 1], limit) + if Usable(r) then Frames(r.start, r.start + r.count, limit) else []
  }

  /** The frames from `lo` up to `hi`, without those in low memory or behind the bitmap. */
  function Frames(lo: nat, hi: nat, limit: nat): seq<nat>
    decreases hi
  {
    if hi <= lo then []
    else Frames(lo, hi - 1, limit) + if LOW_FRAMES <= hi - 1 < limit then [hi - 1] else []
  }

  ghost predicate Distinct(s: seq<nat>) { forall i, j | 0 <= i < j < |s| :: s[i] != s[j] }

  ghost function Members(s: seq<nat>): set<nat> { set x | x in s }

  /** As many members as entries exactly when no entry repeats. */
  lemma {:induction false} DistinctIff(s: seq<nat>)
    ensures |Members(s)| <= |s|
    ensures |Members(s)| == |s| <==> Distinct(s)
  {
    if s != [] {
      var t, x := s[..|s| - 1], s[|s| - 1];
      DistinctIff(t);
      assert s == t + [x];
      assert Members(s) == Members(t) + {x};
      if x in t {
        var i :| 0 <= i < |t| && t[i] == x;
        assert s[i] == s[|s| - 1];
      }
    }
  }

  /** The frames of two regions, without low memory and what is behind the bitmap, do not meet. */
  predicate Disjoint(a: Region, b: Region, limit: nat) {
    Least(Least(a.start + a.count, b.start + b.count), limit) <= Most(Most(a.start, b.start), LOW_FRAMES)
  }

  function Least(x: nat, y: nat): nat { if x < y then x else y }

  function Most(x: nat, y: nat): nat { if x < y then y else x }

  /** No two usable regions of the memory map list the same frame. */
  predicate NoOverlap(regions: seq<Region>, limit: nat) {
    forall a, b | 0 <= a < b < |regions| && Usable(regions[a]) && Usable(regions[b]) ::
      Disjoint(regions[a], regions[b], limit)
  }

  ghost predicate Lists(r: Region, limit: nat, f: nat) {
    Usable(r) && r.start <= f < r.start + r.count && LOW_FRAMES <= f < limit
  }

  lemma {:induction false} FramesIn(lo: nat, hi: nat, limit: nat, f: nat)
    ensures f in Frames(lo, hi, limit) <==> lo <= f < hi && LOW_FRAMES <= f < limit
    decreases hi
  {
    if lo < hi {
      FramesIn(lo, hi - 1, limit, f);
    }
  }

  lemma {:induction false} FramesDistinct(lo: nat, hi: nat, limit: nat)
    ensures Distinct(Frames(lo, hi, limit))
    decreases hi
  {
    if lo < hi {
      FramesDistinct(lo, hi - 1, limit);
      FramesIn(lo, hi - 1, limit, hi - 1);
    }
  }

  lemma {:induction false} MarkedIn(regions: seq<Region>, limit: nat, f: nat)
    ensures f in Marked(regions, limit) <==> exists i | 0 <= i < |regions| :: Lists(regions[i], limit, f)
  {
    if regions != [] {
      var t, r := regions[..|regions| - 1], regions[|regions| - 1];
      MarkedIn(t, limit, f);
      var fs := if Usable(r) then Frames(r.start, r.start + r.count, limit) else [];
      assert f in fs <==> Lists(r, limit, f) by {
        FramesIn(r.start, r.start + r.count, limit, f);
      }
      assert Marked(regions, limit) == Marked(t, limit) + fs;
      hide Marked, Lists, Frames;
      assert (exists i | 0 <= i < |regions| :: Lists(regions[i], limit, f)) <==>
             (exists i | 0 <= i < |t| :: Lists(t[i], limit, f)) || Lists(r, limit, f) by {
        assert forall i | 0 <= i < |t| :: t[i] == regions[i];
        if i :| 0 <= i < |t| && Lists(t[i], limit, f) {
          assert Lists(regions[i], limit, f);
        }
      }
    }
  }

  lemma DistinctJoin(s: seq<nat>, t: seq<nat>)
    ensures Distinct(s + t) <==> Distinct(s) && Distinct(t) && forall x | x in s :: x !in t
  {
    var u := s + t;
    if Distinct(u) {
      forall i, j | 0 <= i < |s| && 0 <= j < |t|
        ensures s[i] != t[j]
      {
        assert u[i] != u[|s| + j];
      }
      forall i, j | 0 <= i < j < |t|
        ensures t[i] != t[j]
      {
        assert u[|s| + i] != u[|s| + j];
      }
      assert forall i, j | 0 <= i < j < |s| :: u[i] == s[i] && u[j] == s[j];
    } else {
      var i, j :| 0 <= i < j < |u| && u[i] == u[j];
      assert i < |s| <= j ==> u[i] in s && u[j] in t;
      assert |s| <= i ==> t[i - |s|] == t[j - |s|];
    }
  }

  /** Two regions are apart exactly when no frame is listed by both. */
  lemma DisjointIff(a: Region, b: Region, limit: nat)
    requires Usable(a) && Usable(b)
    ensures Disjoint(a, b, limit) <==> forall f: nat | Lists(a, limit, f) :: !Lists(b, limit, f)
  {
    var f := Most(Most(a.start, b.start), LOW_FRAMES);
    if !Disjoint(a, b, limit) {
      assert Lists(a, limit, f) && Lists(b, limit, f);
    }
  }

  /** Initialisation marks no frame twice exactly when no two usable regions overlap. */
  lemma {:induction false} MarkedOnceIff(regions: seq<Region>, limit: nat)
    ensures Distinct(Marked(regions, limit)) <==> NoOverlap(regions, limit)
  {
    hide Disjoint, Lists;
    if regions != [] {
      var n := |regions| - 1;
      var t, r := regions[..n], regions[n];
      MarkedOnceIff(t, limit);
      if Usable(r) {
        var fs := Frames(r.start, r.start + r.count, limit);
        DistinctJoin(Marked(t, limit), fs);
        FramesDistinct(r.start, r.start + r.count, limit);
        JoinIff(t, r, limit);
      } else {
        assert Marked(regions, limit) == Marked(t, limit);
      }
      OverlapStep(regions, limit);
    }
  }

  lemma OverlapStep(regions: seq<Region>, limit: nat)
    requires regions != []
    ensures var n := |regions| - 1;
            NoOverlap(regions, limit) <==>
              && NoOverlap(regions[..n], limit)
              && (Usable(regions[n]) ==>
                    forall a | 0 <= a < n && Usable(regions[..n][a]) :: Disjoint(regions[..n][a], regions[n], limit))
  {
    hide Disjoint, Usable;
    var t := regions[..|regions| - 1];
    assert forall i | 0 <= i < |t| :: t[i] == regions[i];
    if NoOverlap(regions, limit) {
      forall a, b | 0 <= a < b < |t| && Usable(t[a]) && Usable(t[b])
        ensures Disjoint(t[a], t[b], limit)
      {
        assert Disjoint(regions[a], regions[b], limit);
      }
    }
  }

  lemma JoinIff(t: seq<Region>, r: Region, limit: nat)
    requires Usable(r)
    ensures (forall x | x in Marked(t, limit) :: x !in Frames(r.start, r.start + r.count, limit)) <==>
            forall a | 0 <= a < |t| && Usable(t[a]) :: Disjoint(t[a], r, limit)
  {
    hide Disjoint, Marked, Frames;
    forall f: nat
      ensures f in Frames(r.start, r.start + r.count, limit) <==> Lists(r, limit, f)
      ensures f in Marked(t, limit) <==> exists i | 0 <= i < |t| :: Lists(t[i], limit, f)
    {
      FramesIn(r.start, r.start + r.count, limit, f);
      MarkedIn(t, limit, f);
    }
    forall a | 0 <= a < |t| && Usable(t[a])
      ensures Disjoint(t[a], r, limit) <==> forall f: nat | Lists(t[a], limit, f) :: !Lists(r, limit, f)
    {
      DisjointIff(t[a], r, limit);
    }
  }

  lemma NothingFree(bitmap: seq<bv8>)
    requires forall i | 0 <= i < |bitmap| :: bitmap[i] == 0
    ensures FreeSet(bitmap) == {}
  {
  }

  class FrameAllocator {
    var bitmap: seq<bv8>
    var freePages: nat

    ghost function Free(): set<nat>
      reads this
    {
      FreeSet(bitmap)
    }

    /** Frame 0 is never free, because address 0 stands for failure. */
    ghost predicate Valid()
      reads this
    {
      0 !in Free()
    }

    /** Marks the usable regions of the memory map free, and counts every frame it marks. */
    constructor (regions: seq<Region>, bytes: nat)
      ensures Valid() && |bitmap| == bytes
      ensures Free() == Members(Marked(regions, 8 * bytes)) && freePages == |Marked(regions, 8 * bytes)|
      ensures |Free()| <= freePages
      ensures freePages == |Free()| <==> NoOverlap(regions, 8 * bytes)
      ensures forall f: nat :: f in Free() <==>
                exists i | 0 <= i < |regions| ::
                  && (regions[i].kind == 5 || regions[i].kind == 6 || regions[i].kind == 7)
                  && regions[i].start <= f < regions[i].start + regions[i].count && 256 <= f < 8 * bytes
    {
      hide Bit, Marking, FreeSet, Frames;
      bitmap := seq(bytes, _ => 0);
      freePages := 0;
      new;
      NothingFree(bitmap);
      var i := 0;
      while i < |regions|
        invariant 0 <= i <= |regions| && |bitmap| == bytes
        invariant Free() == Members(Marked(regions[..i], 8 * bytes)) && freePages == |Marked(regions[..i], 8 * bytes)|
        invariant 0 !in Free()
      {
        var r := regions[i];
        ghost var before := Marked(regions[..i], 8 * bytes);
        assert regions[..i + 1][..i] == regions[..i];
        if Usable(r) {
          MarkRange(r.start, r.start + r.count, before);
        } else {
          assert before + [] == before;
        }
        i := i + 1;
      }
      assert regions[..|regions|] == regions;
      CounterExactIff(regions, 8 * bytes);
      forall f: nat { MarkedIn(regions, 8 * bytes, f); }
    }

    /** Marks the frames of one region that lie above low memory and within the bitmap. */
    method MarkRange(lo: nat, hi: nat, ghost before: seq<nat>)
      requires lo <= hi && Free() == Members(before) && freePages == |before| && 0 !in Free()
      modifies this
      ensures |bitmap| == old(|bitmap|) && 0 !in Free()
      ensures var all := before + Frames(lo, hi, 8 * |bitmap|);
              Free() == Members(all) && freePages == |all|
    {
      hide Bit, Marking;
      ghost var limit := 8 * |bitmap|;
      var j := lo;
      assert before + [] == before;
      while j < hi && j < 8 * |bitmap|
        invariant lo <= j <= hi && |bitmap| == old(|bitmap|) && 0 !in Free()
        invariant Free() == Members(before + Frames(lo, j, limit)) && freePages == |before + Frames(lo, j, limit)|
      {
        ghost var done := before + Frames(lo, j, limit);
        if j < LOW_FRAMES {
          j := j + 1;
          continue;
        }
        MarkingSet(bitmap, j, true);
        bitmap := Marking(bitmap, j, true);
        freePages := freePages + 1;
        assert before + Frames(lo, j + 1, limit) == done + [j];
        j := j + 1;
      }
      FramesPast(lo, j, hi, limit);
    }

    /** The lowest free frame, as an address; 0 exactly when none is free. */
    method Alloc() returns (paddr: nat)
      requires Valid()
      modifies this
      ensures Valid() && |bitmap| == old(|bitmap|)
      ensures paddr == 0 <==> old(Free()) == {}
      ensures paddr == 0 ==> Free() == old(Free()) && freePages == old(freePages)
      ensures paddr != 0 ==> && paddr % PAGE_SIZE == 0 && paddr / PAGE_SIZE in old(Free())
                             && (forall f | f in old(Free()) :: paddr / PAGE_SIZE <= f)
                             && Free() == old(Free()) - {paddr / PAGE_SIZE}
      ensures old(|Free()| <= freePages) ==> freePages - |Free()| == old(freePages - |Free()|)
    {
      hide Bit, Marking;
      var i := 0;
      while i < 8 * |bitmap|
        invariant 0 <= i <= 8 * |bitmap|
        invariant forall j: nat | j < i :: !Bit(bitmap, j)
        invariant unchanged(this)
      {
        if Bit(bitmap, i) {
          assert i in Free();
          MarkingSet(bitmap, i, false);
          bitmap := Marking(bitmap, i, false);
          if freePages > 0 {
            freePages := freePages - 1;
          }
          return i * PAGE_SIZE;
        }
        i := i + 1;
      }
      assert Free() == {};
      return 0;
    }

    /** Freeing address 0, a frame behind the bitmap or a free frame does nothing; the frame of any other address,
        aligned or not, becomes free, so an address inside page 0 makes frame 0 free, which Alloc would hand out as
        failure. */
    method Release(paddr: nat)
      requires Valid()
      modifies this
      ensures Valid() <==> bitmap == [] || paddr == 0 || PAGE_SIZE <= paddr
      ensures |bitmap| == old(|bitmap|)
      ensures var f := paddr / PAGE_SIZE;
              Free() == if paddr == 0 || f >= 8 * |bitmap| then old(Free()) else old(Free()) + {f}
      ensures old(|Free()| <= freePages) ==> freePages - |Free()| == old(freePages - |Free()|)
    {
      hide Bit, Marking;
      if paddr == 0 {
        return;
      }
      var i := paddr / PAGE_SIZE;
      if i >= 8 * |bitmap| {
        return;
      }
      if !Bit(bitmap, i) {
        MarkingSet(bitmap, i, true);
        bitmap := Marking(bitmap, i, true);
        freePages := freePages + 1;
      }
    }
  }

  /** Behind the bitmap a region adds nothing. */
  lemma {:induction false} FramesPast(lo: nat, j: nat, hi: nat, limit: nat)
    requires lo <= j <= hi && (j == hi || limit <= j)
    ensures Frames(lo, hi, limit) == Frames(lo, j, limit)
    decreases hi
  {
    if j < hi {
      FramesPast(lo, j, hi - 1, limit);
    }
  }

  /** The counter that initialisation leaves is exact if and only if no two usable regions overlap. */
  lemma CounterExactIff(regions: seq<Region>, limit: nat)
    ensures |Members(Marked(regions, limit))| <= |Marked(regions, limit)|
    ensures |Members(Marked(regions, limit))| == |Marked(regions, limit)| <==> NoOverlap(regions, limit)
  {
    DistinctIff(Marked(regions, limit));
    MarkedOnceIff(regions, limit);
  }

  /** Two usable regions that share one frame above low memory: the counter is one too high, and stays so. */
  method CountedTwice() returns (pfa: FrameAllocator, before: nat, after: nat)
    ensures pfa.Free() == {} && pfa.freePages == 1
    ensures before == LOW_FRAMES * PAGE_SIZE && after == 0
  {
    var regions := [Region(7, LOW_FRAMES, 1), Region(5, LOW_FRAMES, 1)];
    pfa := new FrameAllocator(regions, LOW_FRAMES);
    assert Marked(regions, 8 * LOW_FRAMES) == [LOW_FRAMES, LOW_FRAMES] by {
      assert regions[..1] == [regions[0]] && regions[..1][..0] == [];
      assert Frames(LOW_FRAMES, LOW_FRAMES, 8 * LOW_FRAMES) == [];
      assert Frames(LOW_FRAMES, LOW_FRAMES + 1, 8 * LOW_FRAMES) == [LOW_FRAMES];
      assert Marked([], 8 * LOW_FRAMES) == [];
      assert Marked(regions[..1], 8 * LOW_FRAMES) == [LOW_FRAMES];
    }
    assert pfa.Free() == {LOW_FRAMES};
    before := pfa.Alloc();
    assert before / PAGE_SIZE == LOW_FRAMES;
    after := pfa.Alloc();
  }
}
