/** The page tables seen as the memory of the copy-on-write machine: cloning and the write fault are its steps. */
module CowView {
  import opened Bytes
  import opened Paging
  import opened PageTables
  import opened Mmu
  import opened FrameAlloc
  import opened CowTables
  import R = Refcount
  import C = CopyOnWrite

  const USER_PAGES: nat := 0x8_0000_0000  // 2^35 pages below the kernel's half

  function Index(page: nat): (idx: seq<nat>)
    ensures IsPath(idx, LEVELS)
  {
    [page / ENTRIES / ENTRIES / ENTRIES % ENTRIES, page / ENTRIES / ENTRIES % ENTRIES, page / ENTRIES % ENTRIES,
        page % ENTRIES]
  }

  function PageOf(idx: seq<nat>): nat
    requires IsPath(idx, LEVELS)
  {
    ((idx[0] * ENTRIES + idx[1]) * ENTRIES + idx[2]) * ENTRIES + idx[3]
  }

  lemma Digits4(a: nat, b: nat, c: nat, d: nat)
    requires a < ENTRIES && b < ENTRIES && c < ENTRIES && d < ENTRIES
    ensures Index(((a * ENTRIES + b) * ENTRIES + c) * ENTRIES + d) == [a, b, c, d]
  {
    LastDigit((a * ENTRIES + b) * ENTRIES + c, d);
    LastDigit(a * ENTRIES + b, c);
    LastDigit(a, b);
  }

  lemma LastDigit(q: nat, r: nat)
    requires r < ENTRIES
    ensures (q * ENTRIES + r) / ENTRIES == q && (q * ENTRIES + r) % ENTRIES == r
  {
  }

  lemma IndexOfPage(idx: seq<nat>)
    requires IsPath(idx, LEVELS) && idx[0] < USER_HALF
    ensures PageOf(idx) < USER_PAGES && Index(PageOf(idx)) == idx
  {
    Digits4(idx[0], idx[1], idx[2], idx[3]);
    assert idx == [idx[0], idx[1], idx[2], idx[3]];
  }

  lemma PageIsUser(page: nat)
    requires page < USER_PAGES
    ensures Index(page)[0] < USER_HALF
  {
  }

  predicate Mapped(tables: Tables, root: nat, page: nat) { FoundPresent(Walk(tables, root, Index(page))) }

  function EntryAt(tables: Tables, root: nat, page: nat): Pte
    requires Mapped(tables, root, page)
  {
    Walk(tables, root, Index(page)).e
  }

  ghost function Entries(tables: Tables, roots: set<nat>): map<C.Slot, Pte> {
    map r: nat, p: nat | r in roots && p < USER_PAGES && Mapped(tables, r, p) :: C.Slot(r, p) := EntryAt(tables, r, p)
  }

  ghost function View(tables: Tables, roots: set<nat>, frames: map<nat, seq<byte>>, refs: seq<nat>, free: set<nat>,
                      k: Image): C.Mem {
    C.Mem(roots, Entries(tables, roots), frames, refs, free, k.lo, k.hi)
  }

  lemma EntryIs(tables: Tables, roots: set<nat>, s: C.Slot)
    ensures s in Entries(tables, roots) <==> s.space in roots && s.page < USER_PAGES && Mapped(tables, s.space, s.page)
    ensures s in Entries(tables, roots) ==> Entries(tables, roots)[s] == EntryAt(tables, s.space, s.page)
  {
  }

  /** Address spaces whose trees share only the kernel's half, none of it free. */
  ghost predicate Spaces(tables: Tables, roots: set<nat>, paths: map<nat, Places>, free: set<nat>) {
    && (forall r | r in roots :: r in paths && Tree(tables, r, paths[r]) && forall f | f in paths[r] :: f !in free)
    && (forall r, q | r in roots && q in roots && r != q :: Apart(paths[r], paths[q]))
  }

  /** In a sound machine no user frame is writable through two pages, so a clone may begin. */
  lemma MayClone(k: Image, tables: Tables, roots: set<nat>, frames: map<nat, seq<byte>>, refs: seq<nat>, free: set<nat>,
                 src: nat)
    requires C.Compatible(View(tables, roots, frames, refs, free, k)) && src in roots
    ensures OneWriter(k, tables, src, LEVELS, USER_HALF)
  {
    hide Walk;
    var m := View(tables, roots, frames, refs, free, k);
    forall idx: seq<nat>, jdx: seq<nat>, f: nat | IsPath(idx, LEVELS) && IsPath(jdx, LEVELS) && idx[0] < USER_HALF
        && jdx[0] < USER_HALF
        && WritesAt(k, Walk(tables, src, idx), f) && WritesAt(k, Walk(tables, src, jdx), f)
      ensures idx == jdx
    {
      IndexOfPage(idx);
      IndexOfPage(jdx);
      var a, b := C.Slot(src, PageOf(idx)), C.Slot(src, PageOf(jdx));
      EntryIs(tables, roots, a);
      EntryIs(tables, roots, b);
      assert m.Maps(a) && m.Maps(b);
    }
  }

  lemma SameAfter(k: Image, t0: Tables, t1: Tables, roots: set<nat>, frames: map<nat, seq<byte>>, refs: seq<nat>,
                  refs': seq<nat>, free: set<nat>, free': set<nat>, src: nat, dst: nat, p: nat)
    requires ClonedAll(k, t0, t1, src, dst, LEVELS, ENTRIES) && src in roots && dst !in roots
    ensures var m, m' := View(t0, roots, frames, refs, free, k), View(t1, roots + {dst}, frames, refs', free', k);
            && C.SameAfterClone(m, m', C.Slot(src, p), C.Slot(src, p))
            && C.SameAfterClone(m, m', C.Slot(src, p), C.Slot(dst, p))
  {
    hide Walk;
    EntryIs(t0, roots, C.Slot(src, p));
    EntryIs(t1, roots + {dst}, C.Slot(src, p));
    EntryIs(t1, roots + {dst}, C.Slot(dst, p));
    if p < USER_PAGES {
      PageIsUser(p);
      assert ClonedAt(k, t0, t1, src, dst, LEVELS, Index(p));
    }
  }

  lemma SameElsewhere(t0: Tables, t1: Tables, roots: set<nat>, roots': set<nat>, paths: map<nat, Places>,
                      free: set<nat>, src: nat, s: C.Slot)
    requires Spaces(t0, roots, paths, free) && src in roots && OnlyLow(t0, t1, paths[src], free)
    requires roots <= roots' && s.space != src && (s.space in roots' ==> s.space in roots)
    ensures s in Entries(t1, roots') <==> s in Entries(t0, roots)
    ensures s in Entries(t0, roots) ==> Entries(t1, roots')[s] == Entries(t0, roots)[s]
  {
    hide Walk, Tree;
    EntryIs(t0, roots, s);
    EntryIs(t1, roots', s);
    if s.space in roots {
      OthersKeep(t0, t1, paths[src], free, s.space, paths[s.space]);
    }
  }

  lemma WritesSame(k: Image, tables: Tables, roots: set<nat>, frames: map<nat, seq<byte>>, refs: seq<nat>,
                   free: set<nat>, src: nat, f: nat)
    requires src in roots
    ensures f in WrittenUnder(k, tables, src, LEVELS, USER_HALF) <==>
            C.WritesIn(View(tables, roots, frames, refs, free, k), src, f)
  {
    hide Walk;
    var m := View(tables, roots, frames, refs, free, k);
    if WritesUnder(k, tables, src, LEVELS, USER_HALF, f) {
      var i: nat :| i < USER_HALF && WritesVia(k, tables, src, LEVELS, i, f);
      var idx: seq<nat> :| IsPath(idx, LEVELS) && idx[0] == i && WritesAt(k, Walk(tables, src, idx), f);
      IndexOfPage(idx);
      EntryIs(tables, roots, C.Slot(src, PageOf(idx)));
      assert m.Maps(C.Slot(src, PageOf(idx)));
    }
    if C.WritesIn(m, src, f) {
      var s :| m.Maps(s) && s.space == src && m.ptes[s].frame == f && m.ptes[s].rw;
      EntryIs(tables, roots, s);
      PageIsUser(s.page);
      assert WritesAt(k, Walk(tables, src, Index(s.page)), f);
      assert WritesVia(k, tables, src, LEVELS, Index(s.page)[0], f);
    }
  }

  /** Cloning the tables is the cloning step of the copy-on-write machine. */
  lemma CloneIsStep(k: Image, t0: Tables, t1: Tables, roots: set<nat>, paths: map<nat, Places>,
                    frames: map<nat, seq<byte>>, refs: seq<nat>, refs': seq<nat>, free: set<nat>, free': set<nat>,
                    src: nat, dst: nat)
    requires Spaces(t0, roots, paths, free) && src in roots && dst !in roots && OnlyLow(t0, t1, paths[src], free)
    requires ClonedAll(k, t0, t1, src, dst, LEVELS, ENTRIES) && Bounded(refs) && free' <= free
    requires Bumped(k, refs, refs', WrittenUnder(k, t0, src, LEVELS, USER_HALF))
    requires forall f | f in frames :: |frames[f]| == PAGE_SIZE
    ensures C.Cloned(View(t0, roots, frames, refs, free, k), View(t1, roots + {dst}, frames, refs', free', k), src, dst)
  {
    hide Walk, Tree, ClonedAll, Spaces, OnlyLow, WrittenUnder, Entries;
    var m, m' := View(t0, roots, frames, refs, free, k), View(t1, roots + {dst}, frames, refs', free', k);
    forall p: nat
      ensures C.SameAfterClone(m, m', C.Slot(src, p), C.Slot(src, p))
              && C.SameAfterClone(m, m', C.Slot(src, p), C.Slot(dst, p))
    {
      SameAfter(k, t0, t1, roots, frames, refs, refs', free, free', src, dst, p);
    }
    forall s: C.Slot | s.space != src && s.space != dst
      ensures (s in m'.ptes <==> s in m.ptes) && (s in m.ptes ==> m'.ptes[s] == m.ptes[s])
    {
      SameElsewhere(t0, t1, roots, roots + {dst}, paths, free, src, s);
    }
    forall f | 0 <= f < |refs|
      ensures !k.Has(f) ==> refs'[f] == if C.WritesIn(m, src, f) then R.Inc(R.Inc(refs, f), f)[f] else refs[f]
      ensures k.Has(f) ==> refs'[f] == refs[f] || refs[f] < refs'[f] <= R.MAX
    {
      WritesSame(k, t0, roots, frames, refs, free, src, f);
      assert refs[f] <= refs'[f] <= R.MAX;
    }
  }

  lemma IndexIs(va: nat)
    ensures Index(PageNumber(va)) == Indices(va)
  {
    var n, p := va / 0x1000, PageNumber(va);
    Nested(va);
    PageFromIndices(va);
    var i := Indices(va);
    Digits4(i[0], i[1], i[2], i[3]);
  }

  lemma PageOfIndex(p: nat)
    requires p < USER_PAGES
    ensures PageOf(Index(p)) == p
  {
  }

  lemma OnlyEntryLow(t0: Tables, t1: Tables, root: nat, path: Places, idx: seq<nat>, free: set<nat>)
    requires IsPath(idx, LEVELS) && idx[0] < USER_HALF && OnlyEntry(t0, t1, root, path, idx)
    ensures OnlyLow(t0, t1, path, free) && SameBut(t0, t1, root, iset{idx})
  {
  }

  /** What is found for a page is what was found. */
  lemma SameSlot(t0: Tables, t1: Tables, roots: set<nat>, paths: map<nat, Places>, free: set<nat>, root: nat,
                 changed: iset<seq<nat>>, s: C.Slot)
    requires Spaces(t0, roots, paths, free) && root in roots && root in paths && OnlyLow(t0, t1, paths[root], free)
    requires SameBut(t0, t1, root, changed) && (s.space == root ==> Index(s.page) !in changed)
    ensures s in Entries(t1, roots) <==> s in Entries(t0, roots)
    ensures s in Entries(t0, roots) ==> Entries(t1, roots)[s] == Entries(t0, roots)[s]
    ensures s.space in roots && s.page < USER_PAGES ==>
              (Walk(t1, s.space, Index(s.page)).Large? <==> Walk(t0, s.space, Index(s.page)).Large?)
  {
    hide Walk, Tree, Index, Entries;
    EntryIs(t0, roots, s);
    EntryIs(t1, roots, s);
    if s.space != root {
      SameElsewhere(t0, t1, roots, roots, paths, free, root, s);
      if s.space in roots {
        OthersKeep(t0, t1, paths[root], free, s.space, paths[s.space]);
      }
    } else {
      SameAt(t0, t1, root, changed, Index(s.page));
    }
  }

  /** No user page lies in a large page. */
  ghost predicate NoLarge(tables: Tables, roots: set<nat>) {
    forall r, p: nat | r in roots && p < USER_PAGES :: !Walk(tables, r, Index(p)).Large?
  }

  lemma IndexApart(p: nat, q: nat)
    requires p < USER_PAGES && q < USER_PAGES && p != q
    ensures Index(p) != Index(q)
  {
    PageOfIndex(p);
    PageOfIndex(q);
  }

  /** The entries with that of one page replaced; an entry that is not present is none. */
  ghost function Replaced(ptes: map<C.Slot, Pte>, s: C.Slot, e: Pte): map<C.Slot, Pte> {
    if e.present then ptes[s := e] else ptes - {s}
  }

  /** Changing the entry of one page changes one slot. */
  lemma OneSlot(t0: Tables, t1: Tables, roots: set<nat>, paths: map<nat, Places>, free: set<nat>, root: nat, page: nat,
                e: Pte)
    requires Spaces(t0, roots, paths, free) && root in roots && root in paths && page < USER_PAGES && NoLarge(t0, roots)
    requires OnlyLow(t0, t1, paths[root], free) && SameBut(t0, t1, root, iset{Index(page)})
    requires Walk(t1, root, Index(page)) == Leaf(e) || (Absent(Walk(t1, root, Index(page))) && e == NO_ENTRY)
    ensures Entries(t1, roots) == Replaced(Entries(t0, roots), C.Slot(root, page), e) && NoLarge(t1, roots)
  {
    hide Walk, Tree, Index, Entries, Spaces, OnlyLow, SameBut;
    var a, b := Replaced(Entries(t0, roots), C.Slot(root, page), e), Entries(t1, roots);
    forall s: C.Slot
      ensures (s in a <==> s in b) && (s in a ==> a[s] == b[s])
      ensures s.space in roots && s.page < USER_PAGES ==> !Walk(t1, s.space, Index(s.page)).Large?
    {
      EntryIs(t0, roots, s);
      EntryIs(t1, roots, s);
      if s != C.Slot(root, page) && s.page < USER_PAGES {
        if s.space == root {
          IndexApart(s.page, page);
        }
        SameSlot(t0, t1, roots, paths, free, root, iset{Index(page)}, s);
      }
    }
    assert a == b;
    forall r, p: nat | r in roots && p < USER_PAGES
      ensures !Walk(t1, r, Index(p)).Large?
    {
      assert C.Slot(r, p).space == r;
    }
  }

  /** A change that no page sees. */
  lemma SameSlots(t0: Tables, t1: Tables, roots: set<nat>, paths: map<nat, Places>, free: set<nat>, root: nat)
    requires Spaces(t0, roots, paths, free) && root in roots && root in paths && NoLarge(t0, roots)
    requires OnlyLow(t0, t1, paths[root], free) && SameBut(t0, t1, root, iset{})
    ensures Entries(t1, roots) == Entries(t0, roots) && NoLarge(t1, roots)
  {
    hide Walk, Tree, Index, Entries, Spaces, OnlyLow, SameBut;
    var a, b := Entries(t0, roots), Entries(t1, roots);
    forall s: C.Slot
      ensures (s in a <==> s in b) && (s in a ==> a[s] == b[s])
      ensures s.space in roots && s.page < USER_PAGES ==> !Walk(t1, s.space, Index(s.page)).Large?
    {
      SameSlot(t0, t1, roots, paths, free, root, iset{}, s);
    }
    assert a == b;
    forall r, p: nat | r in roots && p < USER_PAGES
      ensures !Walk(t1, r, Index(p)).Large?
    {
      assert C.Slot(r, p).space == r;
    }
  }

  lemma SpaceOf(tables: Tables, roots: set<nat>, paths: map<nat, Places>, free: set<nat>, r: nat)
    requires Spaces(tables, roots, paths, free) && r in roots
    ensures r in paths && Tree(tables, r, paths[r]) && (forall f | f in paths[r] :: f !in free)
    ensures r !in free && r != 0
  {
  }

  /** The spaces stay sound when only tables of one of them changed, and new ones came from free frames. */
  lemma SpacesKept(t0: Tables, t1: Tables, roots: set<nat>, paths: map<nat, Places>, free: set<nat>, free': set<nat>,
                   src: nat, path: Places)
    requires Spaces(t0, roots, paths, free) && src in roots && OnlyLow(t0, t1, paths[src], free) && free' <= free
    requires Tree(t1, src, path) && (forall f | f in path :: f !in free')
    requires forall f | f in path :: f in free || (f in paths[src] && path[f] == paths[src][f])
    ensures Spaces(t1, roots, paths[src := path], free')
  {
    forall r | r in roots && r != src
      ensures Tree(t1, r, paths[r]) && (forall f | f in paths[r] :: f !in free') && Apart(paths[r], path)
              && Apart(path, paths[r])
    {
      OthersKeep(t0, t1, paths[src], free, r, paths[r]);
      assert Apart(paths[r], paths[src]) && Apart(paths[src], paths[r]);
    }
  }

  lemma SamePath(paths: map<nat, Places>, src: nat)
    requires src in paths
    ensures paths[src := paths[src]] == paths
  {
  }

  /** A clone joins them. */
  lemma SpacesJoin(t0: Tables, t1: Tables, roots: set<nat>, paths: map<nat, Places>, free: set<nat>, free': set<nat>,
                   src: nat, dst: nat, dp: Places)
    requires Spaces(t0, roots, paths, free) && src in roots && OnlyLow(t0, t1, paths[src], free) && free' <= free
    requires Tree(t1, src, paths[src]) && Tree(t1, dst, dp) && Apart(paths[src], dp)
             && (forall f | f in dp :: f !in free')
    requires NewFrom(paths[src], map[], dp, free) && dst in free
    ensures dst !in roots && Spaces(t1, roots + {dst}, paths[dst := dp], free')
  {
    hide Tree;
    SpacesKept(t0, t1, roots, paths, free, free', src, paths[src]);
    SamePath(paths, src);
    assert dst !in roots by {
      if dst in roots { SpaceOf(t0, roots, paths, free, dst); }
    }
    forall r | r in roots
      ensures Apart(paths[r], dp) && Apart(dp, paths[r])
    {
      if r != src {
        forall f | f in paths[r] && f in dp
          ensures paths[r][f] == dp[f] && !Low(dp[f])
        {
          assert Apart(paths[src], paths[r]);
        }
      }
    }
  }

  /** So does a blank root; it maps nothing. */
  lemma SpacesNew(t0: Tables, roots: set<nat>, paths: map<nat, Places>, free: set<nat>, root: nat)
    requires Spaces(t0, roots, paths, free) && root in free && root != 0 && NoLarge(t0, roots)
    ensures var t1 := t0[root := Blank()];
            && root !in roots && Spaces(t1, roots + {root}, paths[root := Alone(root)], free - {root})
            && Entries(t1, roots + {root}) == Entries(t0, roots) && NoLarge(t1, roots + {root})
  {
    hide Tree, Walk, NoLarge, Entries, Spaces;
    NewRootTrees(t0, roots, paths, free, root);
    NewRootMapsNothing(t0, roots, paths, free, root);
  }

  lemma NewRootTrees(t0: Tables, roots: set<nat>, paths: map<nat, Places>, free: set<nat>, root: nat)
    requires Spaces(t0, roots, paths, free) && root in free && root != 0
    ensures root !in roots && Spaces(t0[root := Blank()], roots + {root}, paths[root := Alone(root)], free - {root})
  {
    var t1 := t0[root := Blank()];
    forall r | r in roots
      ensures Tree(t1, r, paths[r]) && root !in paths[r] && r != root
    {
      SpaceOf(t0, roots, paths, free, r);
      OthersKeep(t0, t1, map[], free, r, paths[r]);
    }
    assert Tree(t1, root, Alone(root));
  }

  lemma NewRootMapsNothing(t0: Tables, roots: set<nat>, paths: map<nat, Places>, free: set<nat>, root: nat)
    requires Spaces(t0, roots, paths, free) && root in free && root !in roots && NoLarge(t0, roots)
    ensures var t1 := t0[root := Blank()];
            Entries(t1, roots + {root}) == Entries(t0, roots) && NoLarge(t1, roots + {root})
  {
    hide Tree, Walk, Entries;
    var t1 := t0[root := Blank()];
    BlankWalks(t1, root);
    forall r | r in roots
      ensures forall idx: seq<nat> {:trigger Walk(t1, r, idx)} | IsPath(idx, LEVELS) ::
                Walk(t1, r, idx) == Walk(t0, r, idx)
    {
      OthersKeep(t0, t1, map[], free, r, paths[r]);
    }
    var a, b := Entries(t0, roots), Entries(t1, roots + {root});
    forall s: C.Slot
      ensures (s in a <==> s in b) && (s in a ==> a[s] == b[s])
    {
      EntryIs(t0, roots, s);
      EntryIs(t1, roots + {root}, s);
    }
    assert a == b;
  }

  ghost function Alone(root: nat): Places { map[root := []] }

  lemma BlankWalks(tables: Tables, root: nat)
    requires root in tables && tables[root] == Blank()
    ensures forall idx: seq<nat> {:trigger Walk(tables, root, idx)} | IsPath(idx, LEVELS) ::
            Absent(Walk(tables, root, idx))
  {
  }

  lemma CloneNoLarge(k: Image, t0: Tables, t1: Tables, roots: set<nat>, paths: map<nat, Places>, free: set<nat>,
                     src: nat, dst: nat)
    requires Spaces(t0, roots, paths, free) && src in roots && OnlyLow(t0, t1, paths[src], free) && NoLarge(t0, roots)
    requires ClonedAll(k, t0, t1, src, dst, LEVELS, ENTRIES)
    ensures NoLarge(t1, roots + {dst})
  {
    hide Walk, Tree;
    forall r, p: nat | r in roots + {dst} && p < USER_PAGES
      ensures !Walk(t1, r, Index(p)).Large?
    {
      if r == src || r == dst {
        assert ClonedAt(k, t0, t1, src, dst, LEVELS, Index(p));
      } else {
        OthersKeep(t0, t1, paths[src], free, r, paths[r]);
      }
    }
  }

  /** A half-done clone of the tables is one of the machine. */
  lemma HalfIsStep(k: Image, t0: Tables, t1: Tables, roots: set<nat>, paths: map<nat, Places>,
                   frames: map<nat, seq<byte>>, refs: seq<nat>, refs': seq<nat>, free: set<nat>, free': set<nat>,
                   src: nat)
    requires Spaces(t0, roots, paths, free) && src in roots && OnlyLow(t0, t1, paths[src], free) && NoLarge(t0, roots)
    requires HalfAll(k, t0, t1, refs', src, LEVELS) && Grew(refs, refs') && free' <= free
    requires C.Sound(View(t0, roots, frames, refs, free, k))
    ensures C.HalfCloned(View(t0, roots, frames, refs, free, k), View(t1, roots, frames, refs', free', k), src)
    ensures NoLarge(t1, roots)
  {
    hide Walk, Tree, HalfAll, Spaces, OnlyLow, Entries, C.Sound;
    var m, m' := View(t0, roots, frames, refs, free, k), View(t1, roots, frames, refs', free', k);
    forall s: C.Slot
      ensures s in m'.ptes <==> s in m.ptes
      ensures s in m.ptes ==> C.HalfSame(m, m', src, s)
      ensures s.space in roots && s.page < USER_PAGES ==> !Walk(t1, s.space, Index(s.page)).Large?
    {
      HalfSlot(k, t0, t1, roots, paths, frames, refs, refs', free, free', src, s);
    }
    assert m'.ptes.Keys == m.ptes.Keys;
    SoundFrames(m);
    forall r, p: nat | r in roots && p < USER_PAGES
      ensures !Walk(t1, r, Index(p)).Large?
    {
      assert C.Slot(r, p).space == r;
    }
  }

  lemma HalfSlot(k: Image, t0: Tables, t1: Tables, roots: set<nat>, paths: map<nat, Places>,
                 frames: map<nat, seq<byte>>, refs: seq<nat>, refs': seq<nat>, free: set<nat>, free': set<nat>,
                 src: nat, s: C.Slot)
    requires Spaces(t0, roots, paths, free) && src in roots && OnlyLow(t0, t1, paths[src], free) && NoLarge(t0, roots)
    requires HalfAll(k, t0, t1, refs', src, LEVELS) && |refs'| == |refs|
             && C.Sound(View(t0, roots, frames, refs, free, k))
    ensures var m, m' := View(t0, roots, frames, refs, free, k), View(t1, roots, frames, refs', free', k);
            && (s in m'.ptes <==> s in m.ptes) && (s in m.ptes ==> C.HalfSame(m, m', src, s))
    ensures s.space in roots && s.page < USER_PAGES ==> !Walk(t1, s.space, Index(s.page)).Large?
  {
    hide Walk, Tree, Entries, C.Sound;
    var m := View(t0, roots, frames, refs, free, k);
    EntryIs(t0, roots, s);
    EntryIs(t1, roots, s);
    if s.space != src {
      SameElsewhere(t0, t1, roots, roots, paths, free, src, s);
      if s.space in roots {
        OthersKeep(t0, t1, paths[src], free, s.space, paths[s.space]);
      }
    } else if s.page < USER_PAGES {
      assert HalfAt(k, t0, t1, refs', src, LEVELS, Index(s.page));
      if s in m.ptes && m.Maps(s) {
        MappedBacked(m, s);
      }
    }
  }

  lemma MappedBacked(m: C.Mem, s: C.Slot)
    requires C.Sound(m) && m.Maps(s)
    ensures m.ptes[s].frame < |m.refs|
  {
  }

  lemma SoundFrames(m: C.Mem)
    requires C.Sound(m)
    ensures forall f | f in m.frames :: |m.frames[f]| == PAGE_SIZE
  {
  }

  /** Memory as it is set up at boot: free frames hold a page, can be counted and are not of the kernel image. */
  ghost predicate Booted(cow: CowMap)
    reads cow, cow.mmu, cow.mmu.pfa
  {
    && cow.mmu.pfa.Valid() && 8 * |cow.mmu.pfa.bitmap| <= FRAMES && Bounded(cow.refs)
    && (forall f | f in cow.frames :: |cow.frames[f]| == PAGE_SIZE)
    && (forall f | f in cow.mmu.pfa.Free() :: f in cow.frames && f < |cow.refs| && !cow.image.Has(f))
  }

  /** What a process, or the kernel for it, does to memory. */
  datatype Op =
    | NewSpace
    | Fork(src: nat)
    | Store(root: nat, va: nat, v: byte)
    | Touch(root: nat, va: nat)
    | Unmap(root: nat, va: nat)

  /** No user page of the space is copy-on-write. */
  predicate NoCow(tables: Tables, k: Image, root: nat) {
    forall p | 0 <= p < USER_PAGES && Mapped(tables, root, p) && !k.Has(EntryAt(tables, root, p).frame) ::
      !EntryAt(tables, root, p).cow
  }

  /** The operation names a space, a user page of it, an absent one where a page is touched for the first time, and a
      space without copy-on-write pages where one is forked. */
  ghost predicate Applies(op: Op, m: C.Mem) {
    match op
    case NewSpace => true
    case Fork(src) => src in m.spaces && C.CowFree(m, src)
    case Store(root, va, _) => root in m.spaces && PageNumber(va) < USER_PAGES
    case Touch(root, va) => root in m.spaces && PageNumber(va) < USER_PAGES && C.Slot(root, PageNumber(va)) !in m.ptes
    case Unmap(root, va) => root in m.spaces && PageNumber(va) < USER_PAGES
  }

  /** The same, as read from the tables. */
  predicate CanDo(op: Op, roots: set<nat>, tables: Tables, k: Image) {
    match op
    case NewSpace => true
    case Fork(src) => src in roots && NoCow(tables, k, src)
    case Store(root, va, _) => root in roots && PageNumber(va) < USER_PAGES
    case Touch(root, va) =>
      root in roots && PageNumber(va) < USER_PAGES && !FoundPresent(Walk(tables, root, Indices(va)))
    case Unmap(root, va) => root in roots && PageNumber(va) < USER_PAGES
  }

  lemma CanDoIff(op: Op, tables: Tables, roots: set<nat>, frames: map<nat, seq<byte>>, refs: seq<nat>, free: set<nat>,
                 k: Image)
    ensures CanDo(op, roots, tables, k) <==> Applies(op, View(tables, roots, frames, refs, free, k))
  {
    hide Walk, Indices, Index, Entries;
    var m := View(tables, roots, frames, refs, free, k);
    if op.Touch? {
      IndexIs(op.va);
      EntryIs(tables, roots, C.Slot(op.root, PageNumber(op.va)));
    }
    if op.Fork? && op.src in roots {
      if NoCow(tables, k, op.src) {
        NoCowIsFree(tables, roots, frames, refs, free, k, op.src);
      }
      if C.CowFree(m, op.src) {
        forall p: nat | p < USER_PAGES && Mapped(tables, op.src, p) && !k.Has(EntryAt(tables, op.src, p).frame)
          ensures !EntryAt(tables, op.src, p).cow
        {
          EntryIs(tables, roots, C.Slot(op.src, p));
          assert m.Maps(C.Slot(op.src, p));
        }
      }
    }
  }

  /** The machine's step for an operation. What applies is done, unless no frame is left, or the page to be mapped lies
      where no user page may. */
  ghost predicate StepOf(op: Op, m: C.Mem, e: C.Event, m': C.Mem) {
    if !Applies(op, m) then e.Idle?
    else match op
      case NewSpace => e.New? || (e.Idle? && m'.free == {})
      case Fork(src) => (e.Clone? && e.src == src) || (e == C.CloneFails(src) && m'.free == {})
      case Store(root, va, v) =>
        var s := C.Slot(root, PageNumber(va));
        && e.Store? && e == C.Event.Store(s, va % PAGE_SIZE, v, e.pick)
        && (m.Maps(s) && (m.ptes[s].rw || (m.ptes[s].cow && m.free != {})) ==> C.GetsThrough(m, e))
      case Touch(root, va) =>
        && e.Touch? && e == C.Event.Touch(C.Slot(root, PageNumber(va)), e.pick)
        && (C.Touched(m, m', e.k, e.pick) || m'.free == {} || va == 0 || va >= BAD_ADDRESS)
      case Unmap(root, va) => e == C.Event.Unmap(C.Slot(root, PageNumber(va)))
  }

  class AddressSpaces {
    const cow: CowMap
    var roots: set<nat>
    ghost var paths: map<nat, Places>

    constructor (cow: CowMap)
      requires Booted(cow)
      ensures this.cow == cow && roots == {} && paths == map[] && Valid()
    {
      this.cow, roots, paths := cow, {}, map[];
      new;
      NothingMapped(Machine());
    }

    /** The machine these tables, counts and frames stand for. */
    ghost function Machine(): C.Mem
      reads this, cow, cow.mmu, cow.mmu.pfa
    {
      View(cow.mmu.tables, roots, cow.frames, cow.refs, cow.mmu.pfa.Free(), cow.image)
    }

    ghost predicate Valid()
      reads this, cow, cow.mmu, cow.mmu.pfa
    {
      && cow.mmu.pfa.Valid() && 8 * |cow.mmu.pfa.bitmap| <= FRAMES
      && Spaces(cow.mmu.tables, roots, paths, cow.mmu.pfa.Free()) && NoLarge(cow.mmu.tables, roots)
      && C.Inv(Machine())
    }

    /** A space that maps nothing; 0 if no frame is left for its root. */
    method NewSpace() returns (root: nat)
      requires Valid()
      modifies this, cow.mmu, cow.mmu.pfa
      ensures Valid()
      ensures root == 0 ==> cow.mmu.pfa.Free() == {} && Machine() == old(Machine()) && roots == old(roots)
      ensures root != 0 ==> && roots == old(roots) + {root}
                            && C.Sound(old(Machine())) && C.Next(old(Machine()), C.Event.New(root), Machine())
    {
      hide C.Inv, C.Sound, Spaces, NoLarge, Entries, Walk;
      ghost var m, t0, free0 := Machine(), cow.mmu.tables, cow.mmu.pfa.Free();
      InvIs(m);
      ghost var path;
      root, path := cow.mmu.CreatePml4();
      if root == 0 { return; }
      SpacesNew(t0, roots, paths, free0, root);
      roots, paths := roots + {root}, paths[root := Alone(root)];
      SoundFrames(m);
      C.StepRefines(m, C.Event.New(root), Machine());
    }

    /** Cloning a space whose pages leave room in the counts: both see what an eager copy would give them. When frames
        run out half-way nobody sees anything. */
    method Fork(src: nat) returns (dst: nat)
      requires Valid() && src in roots && C.RoomToClone(Machine(), src)
      modifies this, cow`refs, cow.mmu, cow.mmu.pfa
      ensures Valid() && C.Sound(old(Machine()))
      ensures dst != 0 <==>
              1 + Hanging(old(cow.mmu.tables), src, LEVELS, ENTRIES) <= |old(cow.mmu.pfa.Free())|
      ensures dst == 0 ==> && cow.mmu.pfa.Free() == {} && roots == old(roots)
                           && C.Next(old(Machine()), C.CloneFails(src), Machine())
                           && C.View(Machine()) == C.View(old(Machine()))
      ensures dst != 0 ==>
                && roots == old(roots) + {dst} && C.Next(old(Machine()), C.Event.Clone(src, dst), Machine())
                && C.EagerNext(C.View(old(Machine())), C.Event.Clone(src, dst), true, C.View(Machine()))
    {
      hide C.Inv, C.Cloned, C.RoomToClone, C.EagerNext, C.View, Spaces, ClonedAll, OnlyPages, OnlyLow, Bumped,
           WrittenUnder, Walk, Tree, OneWriter, NewFrom, Apart, View, HalfAll, Grew, NoLarge, C.HalfCloned, C.Sound,
           Hanging;
      ghost var m, t0, free0, refs0 := Machine(), cow.mmu.tables, cow.mmu.pfa.Free(), cow.refs;
      SpaceOf(t0, roots, paths, free0, src);
      ghost var sp := paths[src];
      InvIs(m);
      InvFacts(t0, roots, cow.frames, refs0, free0, cow.image, src);
      ghost var dp;
      dst, dp := cow.Clone(src, sp);
      ghost var t1, free1 := cow.mmu.tables, cow.mmu.pfa.Free();
      PagesAreLow(t0, t1, sp, free0);
      if dst == 0 {
        SpacesKept(t0, t1, roots, paths, free0, free1, src, sp);
        SamePath(paths, src);
        HalfIsStep(cow.image, t0, t1, roots, paths, cow.frames, refs0, cow.refs, free0, free1, src);
        C.HalfCloneStep(m, Machine(), src);
        return;
      }
      SpacesJoin(t0, t1, roots, paths, free0, free1, src, dst, dp);
      CloneIsStep(cow.image, t0, t1, roots, paths, cow.frames, refs0, cow.refs, free0, free1, src, dst);
      CloneNoLarge(cow.image, t0, t1, roots, paths, free0, src, dst);
      roots, paths := roots + {dst}, paths[dst := dp];
      CloneRefines(m, Machine(), src, dst);
    }

    /** Resolving a write to a copy-on-write page is the machine's fault. */
    method Resolve(root: nat, va: nat) returns (ok: bool, ghost pick: nat)
      requires Valid() && root in roots && PageNumber(va) < USER_PAGES
      requires var s := C.Slot(root, PageNumber(va)); Machine().Maps(s) && Machine().ptes[s].cow
      modifies cow`refs, cow`frames, cow.mmu`tables, cow.mmu.pfa
      ensures cow.mmu.pfa.Valid() && 8 * |cow.mmu.pfa.bitmap| <= FRAMES
      ensures Spaces(cow.mmu.tables, roots, paths, cow.mmu.pfa.Free()) && NoLarge(cow.mmu.tables, roots)
      ensures var s, m := C.Slot(root, PageNumber(va)), old(Machine());
              && (ok <==> (R.IsShared(m.refs, m.ptes[s].frame) ==> pick in m.free))
              && m.ptes[s].frame in m.frames
              && Machine() == if ok then C.Fault(m, s, pick) else m
      ensures !ok ==> old(Machine()).free == {}
    {
      hide C.Inv, Spaces, Walk, Tree, OnlyEntry, OnlyLow, Entries, Indices, Index, NoLarge, SameBut;
      ghost var m, t0, free0, s := Machine(), cow.mmu.tables, cow.mmu.pfa.Free(), C.Slot(root, PageNumber(va));
      SpaceOf(t0, roots, paths, free0, root);
      EntryIs(t0, roots, s);
      IndexIs(va);
      PageIsUser(s.page);
      SoundFacts(m, s);
      var rc, frame := cow.Fault(root, va, paths[root]);
      ok, pick := rc == 0, frame;
      if ok {
        OnlyEntryLow(t0, cow.mmu.tables, root, paths[root], Index(s.page), free0);
        SpacesKept(t0, cow.mmu.tables, roots, paths, free0, cow.mmu.pfa.Free(), root, paths[root]);
        SamePath(paths, root);
        OneSlot(t0, cow.mmu.tables, roots, paths, free0, root, s.page, Walk(cow.mmu.tables, root, Index(s.page)).e);
      }
    }

    /** A store by the processor, through the write fault if the page is copy-on-write. A page of the kernel image is
        shared by all, and no user page sees what is stored there. */
    method Store(root: nat, va: nat, v: byte) returns (done: bool, ghost pick: nat)
      requires Valid() && root in roots && PageNumber(va) < USER_PAGES
      modifies cow`refs, cow`frames, cow.mmu`tables, cow.mmu.pfa
      ensures Valid() && C.Sound(old(Machine()))
      ensures var e := C.Event.Store(C.Slot(root, PageNumber(va)), va % PAGE_SIZE, v, pick);
              && (done <==> C.GetsThrough(old(Machine()), e)) && C.Next(old(Machine()), e, Machine())
              && C.EagerNext(C.View(old(Machine())), e, done, C.View(Machine()))
      ensures var s, m := C.Slot(root, PageNumber(va)), old(Machine());
              m.Maps(s) && (m.ptes[s].rw || (m.ptes[s].cow && m.free != {})) ==> done
      ensures done ==> C.OneByte(C.View(old(Machine())), C.View(Machine()), C.Slot(root, PageNumber(va)),
                                 va % PAGE_SIZE, v)
      ensures !done ==> C.View(Machine()) == C.View(old(Machine()))
    {
      hide C.OneByte, C.Inv, Spaces, Walk, Tree, OnlyEntry, Entries, Indices, Index, C.Sound, C.EagerNext, C.View,
           NoLarge;
      ghost var m, t0, free0, s := Machine(), cow.mmu.tables, cow.mmu.pfa.Free(), C.Slot(root, PageNumber(va));
      SpaceOf(t0, roots, paths, free0, root);
      EntryIs(t0, roots, s);
      IndexIs(va);
      InvIs(m);
      done, pick := false, 0;
      var t, i := cow.GetPte(root, va, paths[root]);
      ghost var e := C.Event.Store(s, va % PAGE_SIZE, v, pick);
      if t == 0 || !cow.mmu.tables[t][i].present {
        C.StepRefines(m, e, m);
        return;
      }
      var f := cow.mmu.tables[t][i].frame;
      if cow.image.Has(f) {
        KernelFacts(m, s);
        if cow.mmu.tables[t][i].rw && f in cow.frames {
          cow.frames := cow.frames[f := C.Poke(cow.frames[f], va % PAGE_SIZE, v)];
        }
        C.StepRefines(m, e, Machine());
        return;
      }
      if !cow.mmu.tables[t][i].rw {
        if !cow.mmu.tables[t][i].cow {
          C.StepRefines(m, e, m);
          return;
        }
        var ok;
        ok, pick := Resolve(root, va);
        e := C.Event.Store(s, va % PAGE_SIZE, v, pick);
        if !ok {
          C.StepRefines(m, e, m);
          return;
        }
        C.FaultSound(m, s, pick);
        EntryIs(cow.mmu.tables, roots, s);
        SpaceOf(cow.mmu.tables, roots, paths, cow.mmu.pfa.Free(), root);
        t, i := cow.GetPte(root, va, paths[root]);
        f := cow.mmu.tables[t][i].frame;
      } else {
        SoundFacts(m, s);
      }
      done := true;
      cow.frames := cow.frames[f := C.Poke(cow.frames[f], va % PAGE_SIZE, v)];
      C.StepRefines(m, e, Machine());
      C.StoresOneByte(C.View(m), s, va % PAGE_SIZE, v, pick, C.View(Machine()));
    }

    /** The fault on a page that is not present: a free frame is mapped there writable, with the bytes that are in it.
        When the tables cannot be made the frame is lost. */
    method Touch(root: nat, va: nat) returns (rc: int, ghost pick: nat)
      requires Valid() && root in roots && PageNumber(va) < USER_PAGES
      requires !FoundPresent(Walk(cow.mmu.tables, root, Indices(va)))
      modifies this`paths, cow.mmu, cow.mmu.pfa
      ensures Valid() && C.Sound(old(Machine()))
      ensures var s, m := C.Slot(root, PageNumber(va)), old(Machine());
              && C.Next(m, C.Event.Touch(s, pick), Machine())
              && if rc == 0 then C.Touched(m, Machine(), s, pick) else C.Lost(m, Machine())
      ensures rc == 0 <==> && va != 0 && va < BAD_ADDRESS
                           && old(Lacking(cow.mmu.tables, root, Indices(va))) < |old(cow.mmu.pfa.Free())|
      ensures rc == 0 || rc == -1 || rc == -2
      ensures rc == 0 || va == 0 || va >= BAD_ADDRESS || cow.mmu.pfa.Free() == {}
    {
      hide C.Inv, C.Sound, Spaces, Walk, Tree, Entries, Indices, Index, NoLarge, Lacking, OnlyLow, SameBut, Beside,
           Took, UserPath, C.Touched, C.Lost, View, C.EagerNext, C.View;
      ghost var m, t0, free0, s := Machine(), cow.mmu.tables, cow.mmu.pfa.Free(), C.Slot(root, PageNumber(va));
      pick := 0;
      InvIs(m);
      SoundFrames(m);
      LostNothing(m);
      if va == 0 || va >= BAD_ADDRESS { return -1, 0; }
      SpaceOf(t0, roots, paths, free0, root);
      FreeBound(cow.mmu.pfa);
      var phys := cow.mmu.pfa.Alloc();
      if phys == 0 { return -1, 0; }
      pick := phys / PAGE_SIZE;
      ghost var free1 := cow.mmu.pfa.Free();
      IndexIs(va);
      PageIsUser(s.page);
      NotLarge(t0, roots, root, s.page);
      SamePageIndices(va);
      ghost var path;
      rc, path := cow.mmu.MapPage(root, va - va % PAGE_SIZE, phys, Pte(0, true, true, true, false, false, 0),
          paths[root]);
      FreshFrame(phys);
      TouchTables(t0, cow.mmu.tables, roots, paths, free0, free1, cow.mmu.pfa.Free(), root, va, path, rc == 0, pick);
      TookLess(paths[root], path, free1, cow.mmu.pfa.Free());
      TouchIsStep(t0, cow.mmu.tables, roots, cow.frames, cow.refs, free0, cow.mmu.pfa.Free(), cow.image, root, va,
          rc == 0, pick);
      paths := paths[root := path];
      C.StepRefines(m, C.Event.Touch(s, pick), Machine());
      if rc != 0 { rc := -2; }
    }

    /** Clears the entry of one page; its frame is neither freed nor counted down. */
    method Unmap(root: nat, va: nat) returns (rc: int)
      requires Valid() && root in roots && PageNumber(va) < USER_PAGES
      modifies cow.mmu`tables
      ensures Valid() && C.Sound(old(Machine()))
      ensures C.Next(old(Machine()), C.Event.Unmap(C.Slot(root, PageNumber(va))), Machine())
    {
      hide C.Inv, C.Sound, Spaces, Walk, Tree, Entries, Indices, Index, NoLarge, Lacking, OnlyLow, SameBut;
      ghost var m, t0, free0, s := Machine(), cow.mmu.tables, cow.mmu.pfa.Free(), C.Slot(root, PageNumber(va));
      InvIs(m);
      SpaceOf(t0, roots, paths, free0, root);
      IndexIs(va);
      PageIsUser(s.page);
      NotLarge(t0, roots, root, s.page);
      rc := cow.mmu.UnmapPage(root, va, paths[root]);
      UnmapLow(t0, cow.mmu.tables, paths[root], Index(s.page), free0);
      SpacesKept(t0, cow.mmu.tables, roots, paths, free0, free0, root, paths[root]);
      SamePath(paths, root);
      OneSlot(t0, cow.mmu.tables, roots, paths, free0, root, s.page, NO_ENTRY);
      C.StepRefines(m, C.Event.Unmap(s), Machine());
    }

    /** One operation is one step of the machine, and refines the eager machine's. */
    method Perform(op: Op) returns (ghost e: C.Event)
      requires Valid()
      modifies this, cow, cow.mmu, cow.mmu.pfa
      ensures Valid() && C.RunStep(old(Machine()), e, Machine()) && C.Refines(old(Machine()), e, Machine())
      ensures StepOf(op, old(Machine()), e, Machine())
    {
      hide C.Inv, C.Sound, Spaces, NoLarge, NoCow, C.Next, C.EagerNext, C.CowFree, C.RoomToClone, Walk, C.View,
           Entries, C.Touched, C.Lost, Indices;
      ghost var m := Machine();
      e := C.Event.Idle;
      IdleStep(m);
      CanDoIff(op, cow.mmu.tables, roots, cow.frames, cow.refs, cow.mmu.pfa.Free(), cow.image);
      if CanDo(op, roots, cow.mmu.tables, cow.image) {
        match op
        case NewSpace =>
          var root := NewSpace();
          if root != 0 { e := C.Event.New(root); }
        case Fork(src) =>
          C.CowFreeHasRoom(m, src);
          var dst := Fork(src);
          e := if dst == 0 then C.CloneFails(src) else C.Event.Clone(src, dst);
        case Store(root, va, v) =>
          ghost var pick;
          var done;
          done, pick := Store(root, va, v);
          e := C.Event.Store(C.Slot(root, PageNumber(va)), va % PAGE_SIZE, v, pick);
        case Touch(root, va) =>
          ghost var pick;
          var rc;
          rc, pick := Touch(root, va);
          e := C.Event.Touch(C.Slot(root, PageNumber(va)), pick);
        case Unmap(root, va) =>
          var rc := Unmap(root, va);
          e := C.Event.Unmap(C.Slot(root, PageNumber(va)));
      }
      C.RunStepRefines(m, e, Machine());
    }

    /** Any operations, from boot or any later state: a run of the copy-on-write machine in which every space reads as
        if it had a private copy. */
    method Run(ops: seq<Op>) returns (ghost states: seq<C.Mem>, ghost events: seq<C.Event>)
      requires Valid()
      modifies this, cow, cow.mmu, cow.mmu.pfa
      ensures Valid() && C.IsRun(states, events) && |events| == |ops|
      ensures states[0] == old(Machine()) && states[|ops|] == Machine()
      ensures forall i | 0 <= i < |ops| :: C.Refines(states[i], events[i], states[i + 1])
      ensures forall i | 0 <= i < |ops| :: StepOf(ops[i], states[i], events[i], states[i + 1])
    {
      hide C.Inv, C.RunStep, C.Refines, Spaces, NoLarge, View, StepOf;
      states, events := [Machine()], [];
      for i := 0 to |ops|
        invariant Valid() && |events| == i && |states| == i + 1 && states[0] == old(Machine()) && states[i] == Machine()
        invariant C.Inv(states[0])
        invariant forall j | 0 <= j < i ::
                    C.RunStep(states[j], events[j], states[j + 1]) && C.Refines(states[j], events[j], states[j + 1])
        invariant forall j | 0 <= j < i :: StepOf(ops[j], states[j], events[j], states[j + 1])
      {
        ghost var e := Perform(ops[i]);
        states, events := states + [Machine()], events + [e];
      }
    }
  }

  const BAD_ADDRESS: nat := 0xFFFF_FFFF_8000_0000

  /** Everything from the memory map up: no space yet, and a valid state to start from. */
  method Boot(regions: seq<Region>, bytes: nat, image: Image, refs: seq<nat>, frames: map<nat, seq<byte>>)
    returns (a: AddressSpaces)
    requires 8 * bytes <= FRAMES && (forall f | 0 <= f < |refs| :: refs[f] == 0)
    requires forall f | f in frames :: |frames[f]| == PAGE_SIZE
    requires forall f | f in Marked(regions, 8 * bytes) :: f in frames && !image.Has(f) && f < |refs|
    ensures a.Valid() && a.roots == {} && a.cow.mmu.pfa.Free() == Members(Marked(regions, 8 * bytes))
  {
    var pfa := new FrameAllocator(regions, bytes);
    var mmu := new PageMap(pfa);
    var cow := new CowMap(mmu, image, refs, frames);
    FreeBound(pfa);
    a := new AddressSpaces(cow);
  }

  // ----- frames behind the end of the count table -----

  /** Address spaces are made until one's top table lies behind the counts; from then on so does every frame. */
  method SpendCounted(mmu: PageMap, counts: nat, ghost high: set<nat>) returns (root: nat, ghost path: Places)
    requires mmu.pfa.Valid() && 8 * |mmu.pfa.bitmap| <= FRAMES
    requires |high| > 1 && forall g | g in high :: g in mmu.pfa.Free() && g >= counts
    modifies mmu, mmu.pfa
    ensures mmu.Ok(root, path) && path == map[root := []] && mmu.tables[root] == Blank()
    ensures root in old(mmu.pfa.Free()) && mmu.pfa.Free() <= old(mmu.pfa.Free()) && root >= counts
    ensures |mmu.pfa.Free()| >= |high| - 1 && forall g | g in mmu.pfa.Free() :: g >= counts
  {
    hide Tree, Walk;
    root, path := mmu.CreatePml4();
    while root != 0 && root < counts
      invariant mmu.pfa.Valid() && 8 * |mmu.pfa.bitmap| <= FRAMES && mmu.pfa.Free() <= old(mmu.pfa.Free())
      invariant root == 0 ==> mmu.pfa.Free() == {}
      invariant root != 0 ==> && mmu.Ok(root, path) && path == map[root := []] && root in old(mmu.pfa.Free())
                              && root in mmu.tables && mmu.tables[root] == Blank()
                              && forall g | g in mmu.pfa.Free() :: root <= g
      invariant forall g | g in high :: g in mmu.pfa.Free() || g == root
      decreases |mmu.pfa.Free()| + if root == 0 then 0 else 1
    {
      root, path := mmu.CreatePml4();
    }
    Fits(high - {root}, mmu.pfa.Free());
  }

  /** The first page of an empty space: the page's frame, then the three tables. */
  method FirstPage(mmu: PageMap, root: nat, va: nat, ghost path: Places) returns (f: nat, ghost path': Places)
    requires mmu.Ok(root, path) && path == map[root := []] && mmu.tables[root] == Blank() && |mmu.pfa.Free()| > 3
    modifies mmu, mmu.pfa
    ensures mmu.Ok(root, path') && |path'| == 4 && mmu.pfa.Free() <= old(mmu.pfa.Free())
    ensures f in old(mmu.pfa.Free()) && f !in mmu.pfa.Free() && |mmu.pfa.Free()| == |old(mmu.pfa.Free())| - 4
    ensures Walk(mmu.tables, root, Indices(va)) == Leaf(Pte(f, true, true, true, false, false, 0))
    ensures forall idx | IsPath(idx, LEVELS) && idx != Indices(va) :: Absent(Walk(mmu.tables, root, idx))
  {
    hide Tree, Walk, Indices, Absent;
    FreeBound(mmu.pfa);
    var phys := mmu.pfa.Alloc();
    f := phys / PAGE_SIZE;
    path' := MapFirst(mmu, root, va, phys, path);
    FreshFrame(phys);
  }

  method MapFirst(mmu: PageMap, root: nat, va: nat, phys: nat, ghost path: Places) returns (ghost path': Places)
    requires mmu.Ok(root, path) && path == map[root := []] && mmu.tables[root] == Blank() && |mmu.pfa.Free()| >= 3
    modifies mmu, mmu.pfa
    ensures mmu.Ok(root, path') && |path'| == 4
    ensures mmu.pfa.Free() <= old(mmu.pfa.Free()) && |mmu.pfa.Free()| == |old(mmu.pfa.Free())| - 3
    ensures Walk(mmu.tables, root, Indices(va)) == Leaf(Pte(phys / 4096 % 0x100_0000_0000, true, true, true,
            false, false, 0))
    ensures forall idx | IsPath(idx, LEVELS) && idx != Indices(va) :: Absent(Walk(mmu.tables, root, idx))
  {
    hide Tree, Walk, Indices, Lacking, SameBut, UserPath, Took, Beside, Absent;
    NotZero(mmu.tables, root, path);
    ghost var t0, free := mmu.tables, mmu.pfa.Free();
    BlankSpace(t0, root);
    BlankBelow(t0, root, Indices(va));
    SamePageIndices(va);
    var rc;
    rc, path' := mmu.MapPage(root, va - va % PAGE_SIZE, phys, Pte(0, true, true, true, false, false, 0), path);
    TookCount(path, path', free, mmu.pfa.Free());
    StillAbsent(t0, mmu.tables, root, Indices(va));
  }

  lemma StillAbsent(was: Tables, now: Tables, root: nat, page: seq<nat>)
    requires SameBut(was, now, root, iset{page})
    requires forall idx | IsPath(idx, LEVELS) :: Absent(Walk(was, root, idx))
    ensures forall idx | IsPath(idx, LEVELS) && idx != page :: Absent(Walk(now, root, idx))
  {
    hide Walk;
    forall idx | IsPath(idx, LEVELS) && idx != page
      ensures Absent(Walk(now, root, idx))
    {
      SameAt(was, now, root, iset{page}, idx);
    }
  }

  lemma BlankSpace(tables: Tables, root: nat)
    requires root in tables && tables[root] == Blank()
    ensures forall idx | IsPath(idx, LEVELS) :: Absent(Walk(tables, root, idx))
  {
  }

  lemma TookCount(path: Places, path': Places, free: set<nat>, free': set<nat>)
    requires Took(path, path', free, free') && forall f | f in path :: f !in free
    ensures |path'| == |path| + |free| - |free'| && free' <= free
  {
    assert path.Keys !! (free - free') && |path'| == |path'.Keys| && |path| == |path.Keys|;
    assert free == free' + (free - free');
  }

  lemma OneWritten(k: Image, tables: Tables, root: nat, page: seq<nat>)
    requires forall idx | IsPath(idx, LEVELS) && idx != page :: Absent(Walk(tables, root, idx))
    ensures OneWriter(k, tables, root, LEVELS, USER_HALF)
  {
  }

  lemma FewTables(tables: Tables, root: nat, path: Places)
    requires Tree(tables, root, path)
    ensures 1 + Hanging(tables, root, LEVELS, ENTRIES) <= |path|
  {
    HangingBound(tables, root, path, root, LEVELS, ENTRIES);
    Fits(PlacesBelow(path, [], ENTRIES) + {root}, path.Keys);
  }

  /** From the memory map to two spaces that share one page copy-on-write, in a frame behind the counts. */
  method SharedBoot(regions: seq<Region>, bytes: nat, image: Image, refs: seq<nat>, frames: map<nat, seq<byte>>,
                    va: nat)
    returns (cow: CowMap, root: nat, dst: nat, ghost f: nat, ghost sp: Places, ghost dp: Places)
    requires 8 * bytes <= FRAMES && (forall f | 0 <= f < |refs| :: refs[f] == 0)
    requires forall f | f in Marked(regions, 8 * bytes) :: f in frames && !image.Has(f)
    requires |Behind(Marked(regions, 8 * bytes), |refs|)| >= 9 && PageNumber(va) < USER_PAGES
    ensures fresh(cow) && fresh(cow.mmu) && fresh(cow.mmu.pfa)
    ensures cow.frames == frames && |cow.refs| == |refs| <= f && f in frames && f !in cow.mmu.pfa.Free()
    ensures forall g | g in cow.mmu.pfa.Free() :: g in frames
    ensures root != 0 && dst != 0 && cow.mmu.Ok(root, sp) && cow.mmu.Ok(dst, dp) && Apart(sp, dp) && dst !in sp
    ensures Walk(cow.mmu.tables, root, Indices(va)) == Leaf(Pte(f, true, false, true, false, true, 0))
    ensures Walk(cow.mmu.tables, dst, Indices(va)) == Leaf(Pte(f, true, false, true, false, true, 0))
  {
    hide Tree, Walk, Indices, PageNumber, Hanging, ClonedAll, OneWriter, OnlyPages, Bumped, NewFrom, Apart, HalfAll,
         HalfVia, Grew, Marked, Behind, WrittenUnder, ProtectedFound, CopiedFound;
    var pfa := new FrameAllocator(regions, bytes);
    var mmu := new PageMap(pfa);
    cow := new CowMap(mmu, image, refs, frames);
    ghost var path;
    BehindIs(Marked(regions, 8 * bytes), |refs|);
    root, path := SpendCounted(mmu, |refs|, Behind(Marked(regions, 8 * bytes), |refs|));
    f, sp := FirstPage(mmu, root, va, path);
    ghost var t0 := mmu.tables;
    OneWritten(image, t0, root, Indices(va));
    FewTables(t0, root, sp);
    NotZero(t0, root, sp);
    dst, dp := cow.Clone(root, sp);
    SharedPage(image, t0, mmu.tables, refs, cow.refs, root, dst, va, f);
    NewRootApart(mmu.tables, sp, dst, dp);
  }

  lemma SharedPage(k: Image, t0: Tables, t1: Tables, refs: seq<nat>, refs': seq<nat>, root: nat, dst: nat, va: nat,
                   f: nat)
    requires ClonedAll(k, t0, t1, root, dst, LEVELS, ENTRIES) && PageNumber(va) < USER_PAGES && !k.Has(f)
    requires Walk(t0, root, Indices(va)) == Leaf(Pte(f, true, true, true, false, false, 0))
    requires Bumped(k, refs, refs', WrittenUnder(k, t0, root, LEVELS, USER_HALF))
    ensures Walk(t1, root, Indices(va)) == Walk(t1, dst, Indices(va)) == Leaf(Pte(f, true, false, true, false, true, 0))
    ensures |refs'| == |refs|
  {
    hide Walk, Indices, Index;
    IndexIs(va);
    PageIsUser(PageNumber(va));
    assert ClonedAt(k, t0, t1, root, dst, LEVELS, Indices(va));
  }

  lemma NewRootApart(tables: Tables, sp: Places, dst: nat, dp: Places)
    requires Tree(tables, dst, dp) && Apart(sp, dp)
    ensures dst !in sp
  {
  }

  /** On a machine with at least nine usable frames behind the end of the count table, two address spaces come to write
      one frame: the first page of a space gets such a frame, the space is cloned, and the first store through the
      clone goes to the frame that the other space still reads. */
  method UncountedBoot(regions: seq<Region>, bytes: nat, image: Image, refs: seq<nat>, frames: map<nat, seq<byte>>,
                       va: nat, v: byte)
    returns (cow: CowMap, root: nat, dst: nat, ghost f: nat)
    requires 8 * bytes <= FRAMES && (forall f | 0 <= f < |refs| :: refs[f] == 0)
    requires forall f | f in frames :: |frames[f]| == PAGE_SIZE
    requires forall f | f in Marked(regions, 8 * bytes) :: f in frames && !image.Has(f)
    requires |Behind(Marked(regions, 8 * bytes), |refs|)| >= 9
    requires 0 < va < BAD_ADDRESS && PageNumber(va) < USER_PAGES
    ensures root != 0 && dst != 0 && root != dst && f >= |cow.refs| && f in frames
    ensures Walk(cow.mmu.tables, root, Indices(va)) == Leaf(Pte(f, true, false, true, false, true, 0))
    ensures Walk(cow.mmu.tables, dst, Indices(va)) == Leaf(Pte(f, true, true, true, false, false, 0))
    ensures cow.frames == frames[f := C.Poke(frames[f], va % PAGE_SIZE, v)]
  {
    hide Tree, Walk, Indices, PageNumber, Apart, OnlyEntry, Marked, Behind, R.Set, R.Dec;
    ghost var sp, dp;
    cow, root, dst, f, sp, dp := SharedBoot(regions, bytes, image, refs, frames, va);
    ghost var t0 := cow.mmu.tables;
    var rc, pick := cow.Fault(dst, va, dp);
    OtherKept(t0, cow.mmu.tables, root, sp, dst, dp, va);
    var t, i := cow.GetPte(dst, va, dp);
    var g := cow.mmu.tables[t][i].frame;
    cow.frames := cow.frames[g := C.Poke(cow.frames[g], va % PAGE_SIZE, v)];
  }

  /** A fault in one space leaves the pages of another alone. */
  lemma OtherKept(was: Tables, now: Tables, root: nat, sp: Places, dst: nat, dp: Places, va: nat)
    requires Tree(was, root, sp) && Apart(sp, dp) && dst !in sp && PageNumber(va) < USER_PAGES
    requires OnlyEntry(was, now, dst, dp, Indices(va))
    ensures Walk(now, root, Indices(va)) == Walk(was, root, Indices(va)) && root != dst
  {
    hide Walk, Indices, Index;
    IndexIs(va);
    PageIsUser(PageNumber(va));
    forall f | f in sp && sp[root] <= sp[f]
      ensures f in now && now[f] == was[f]
    {
      assert f in was;
      if f in dp { assert !Low(dp[f]); }
    }
    WalkKept(was, now, root, sp, root, Indices(va));
  }

  ghost function Behind(fs: seq<nat>, counts: nat): set<nat> { set f | f in fs && f >= counts }

  lemma BehindIs(fs: seq<nat>, counts: nat)
    ensures forall f | f in Behind(fs, counts) :: f in fs && f >= counts
  {
  }

  lemma FreeBound(pfa: FrameAllocator)
    ensures forall f | f in pfa.Free() :: f < 8 * |pfa.bitmap|
  {
  }

  lemma FreshFrame(phys: nat)
    requires phys / PAGE_SIZE < FRAMES
    ensures phys / 4096 % 0x100_0000_0000 == phys / PAGE_SIZE
  {
  }

  lemma NothingMapped(m: C.Mem)
    requires m.spaces == {} && m.ptes == map[] && (forall f | f in m.frames :: |m.frames[f]| == PAGE_SIZE)
    requires forall f | f in m.free :: f in m.frames && f < |m.refs| && !m.IsKernel(f)
    requires forall f | 0 <= f < |m.refs| :: m.refs[f] <= R.MAX
    ensures C.Inv(m)
  {
    forall f | 0 <= f < |m.refs|
      ensures C.CowUsers(m, f) == {}
    {
    }
  }

  lemma IdleStep(m: C.Mem)
    requires C.Inv(m)
    ensures C.Sound(m) && C.Next(m, C.Event.Idle, m)
  {
  }

  lemma NoCowIsFree(tables: Tables, roots: set<nat>, frames: map<nat, seq<byte>>, refs: seq<nat>, free: set<nat>,
                    k: Image, src: nat)
    requires NoCow(tables, k, src)
    ensures C.CowFree(View(tables, roots, frames, refs, free, k), src)
  {
    hide Walk;
    var m := View(tables, roots, frames, refs, free, k);
    forall s | m.Maps(s) && s.space == src
      ensures !m.ptes[s].cow
    {
      EntryIs(tables, roots, s);
    }
  }

  /** The tables after a page was mapped, or could not be. */
  lemma TouchTables(t0: Tables, t1: Tables, roots: set<nat>, paths: map<nat, Places>, free: set<nat>, free1: set<nat>,
                    free2: set<nat>, root: nat, va: nat, path: Places, mapped: bool, pick: nat)
    requires Spaces(t0, roots, paths, free) && NoLarge(t0, roots) && root in roots && root in paths
             && PageNumber(va) < USER_PAGES
    requires free1 <= free && Took(paths[root], path, free1, free2) && Beside(t0, t1, paths[root], free1, Indices(va))
    requires Tree(t1, root, path) && (forall f | f in path :: f !in free2)
    requires SameBut(t0, t1, root, if mapped then iset{Indices(va)} else iset{})
    requires mapped ==> Walk(t1, root, Indices(va)) == Leaf(Pte(pick, true, true, true, false, false, 0))
    ensures Spaces(t1, roots, paths[root := path], free2) && NoLarge(t1, roots)
    ensures Entries(t1, roots) == if mapped
                                  then Entries(t0, roots)[C.Slot(root, PageNumber(va)) :=
                                      Pte(pick, true, true, true, false, false, 0)]
                                  else Entries(t0, roots)
  {
    hide Walk, Tree, Entries, Indices, Index, SameBut, NoLarge, Spaces;
    IndexIs(va);
    PageIsUser(PageNumber(va));
    SpaceOf(t0, roots, paths, free, root);
    BesideIsLow(t0, t1, paths[root], free1, Indices(va));
    assert OnlyLow(t0, t1, paths[root], free);
    SpacesKept(t0, t1, roots, paths, free, free2, root, path);
    if mapped {
      OneSlot(t0, t1, roots, paths, free, root, PageNumber(va), Pte(pick, true, true, true, false, false, 0));
    } else {
      SameSlots(t0, t1, roots, paths, free, root);
    }
  }

  /** Mapping a page that was not present, or failing to, is the machine's touch. */
  lemma TouchIsStep(t0: Tables, t1: Tables, roots: set<nat>, frames: map<nat, seq<byte>>, refs: seq<nat>,
                    free: set<nat>, free': set<nat>, k: Image, root: nat, va: nat, mapped: bool, pick: nat)
    requires root in roots && PageNumber(va) < USER_PAGES && !FoundPresent(Walk(t0, root, Indices(va)))
    requires C.Sound(View(t0, roots, frames, refs, free, k)) && free' <= free && pick in free && pick !in free'
    requires Entries(t1, roots) == if mapped
                                   then Entries(t0, roots)[C.Slot(root, PageNumber(va)) :=
                                       Pte(pick, true, true, true, false, false, 0)]
                                   else Entries(t0, roots)
    ensures var m, m', s := View(t0, roots, frames, refs, free, k), View(t1, roots, frames, refs, free', k),
            C.Slot(root, PageNumber(va));
            if mapped then C.Touched(m, m', s, pick) else C.Lost(m, m')
  {
    hide Walk, Entries, Index, Indices;
    IndexIs(va);
    EntryIs(t0, roots, C.Slot(root, PageNumber(va)));
    var m := View(t0, roots, frames, refs, free, k);
    SoundFrames(m);
    assert pick in m.free;
  }

  lemma TookLess(path: Places, path': Places, free: set<nat>, free': set<nat>)
    requires Took(path, path', free, free')
    ensures free' <= free
  {
  }

  lemma UnmapLow(t0: Tables, t1: Tables, path: Places, idx: seq<nat>, free: set<nat>)
    requires IsPath(idx, LEVELS) && idx[0] < USER_HALF
    requires forall f {:trigger f in t0} | f in t0 && !(f in path && path[f] == idx[..LEVELS - 1]) ::
               f in t1 && t1[f] == t0[f]
    ensures OnlyLow(t0, t1, path, free)
  {
  }

  lemma NotLarge(tables: Tables, roots: set<nat>, root: nat, page: nat)
    requires NoLarge(tables, roots) && root in roots && page < USER_PAGES
    ensures !Walk(tables, root, Index(page)).Large?
  {
  }

  lemma SamePageIndices(va: nat)
    ensures Indices(va - va % PAGE_SIZE) == Indices(va)
  {
    IndicesIff(va - va % PAGE_SIZE, va);
  }

  lemma LostNothing(m: C.Mem)
    requires forall f | f in m.frames :: |m.frames[f]| == PAGE_SIZE
    ensures C.Lost(m, m)
  {
  }

  lemma KernelFacts(m: C.Mem, s: C.Slot)
    requires C.Inv(m) && s in m.ptes && m.IsKernel(m.ptes[s].frame)
    ensures !m.ptes[s].cow && forall f | f in m.frames :: |m.frames[f]| == PAGE_SIZE
  {
  }

  lemma InvIs(m: C.Mem)
    requires C.Inv(m)
    ensures C.Sound(m)
  {
  }

  lemma SoundFacts(m: C.Mem, s: C.Slot)
    requires C.Inv(m) && m.Maps(s)
    ensures m.ptes[s].frame in m.frames && m.ptes[s].frame !in m.free
    ensures (forall f | f in m.frames :: |m.frames[f]| == PAGE_SIZE) && (forall f | f in m.free :: f in m.frames)
  {
  }

  lemma InvFacts(tables: Tables, roots: set<nat>, frames: map<nat, seq<byte>>, refs: seq<nat>, free: set<nat>, k: Image,
                 src: nat)
    requires C.Inv(View(tables, roots, frames, refs, free, k)) && src in roots
    ensures Bounded(refs) && OneWriter(k, tables, src, LEVELS, USER_HALF) && forall f | f in frames ::
            |frames[f]| == PAGE_SIZE
  {
    MayClone(k, tables, roots, frames, refs, free, src);
  }

  lemma CloneRefines(m: C.Mem, m': C.Mem, src: nat, dst: nat)
    requires C.Inv(m) && C.Cloned(m, m', src, dst) && C.RoomToClone(m, src)
    ensures C.Inv(m')
    ensures C.EagerNext(C.View(m), C.Event.Clone(src, dst), C.GetsThrough(m, C.Event.Clone(src, dst)), C.View(m'))
  {
    C.StepRefines(m, C.Event.Clone(src, dst), m');
  }
}
