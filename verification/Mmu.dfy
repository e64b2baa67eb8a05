/** The page-table operations over physical frames, proved against the map from pages to entries that a walk reads. */
module Mmu {
  import opened Paging
  import opened PageTables
  import opened FrameAlloc

  const FRAMES: nat := 0x100_0000_0000  // frame numbers have 40 bits

  /** Every level above the last one lets user code through. */
  predicate UserPath(tables: Tables, f: nat, idx: seq<nat>)
    requires idx != [] && InBounds(idx)
    decreases |idx|
  {
    |idx| == 1
    || (IsTable(tables, f) && tables[f][idx[0]].user && UserPath(tables, tables[f][idx[0]].frame, idx[1..]))
  }

  /** The address a finished walk stands for; 0 when nothing is mapped. */
  function Address(x: Found, va: nat): nat {
    match x
    case Missing => 0
    case Leaf(e) => if e.present then e.frame * PAGE_SIZE + va % 0x1000 else 0
    case Large(e, rest) => e.frame * PAGE_SIZE + va % (if rest == 2 then 0x4000_0000 else 0x20_0000)
  }

  /** How many tables a walk along `idx` still lacks. */
  function Lacking(tables: Tables, f: nat, idx: seq<nat>): nat
    requires idx != [] && InBounds(idx)
    decreases |idx|
  {
    if |idx| == 1 then 0
    else if !IsTable(tables, f) || !tables[f][idx[0]].present then |idx| - 1
    else Lacking(tables, tables[f][idx[0]].frame, idx[1..])
  }

  /** The last-level entry that maps physical address `paddr`. */
  function Mapping(paddr: nat, flags: Pte): Pte {
    flags.(frame := paddr / PAGE_SIZE % FRAMES, present := true)
  }

  /** Its frame is the address's, it is present, and the other flags are those asked for. */
  lemma MappingIs(paddr: nat, flags: Pte, va: nat)
    ensures Mapping(paddr, flags) == Pte(paddr / 4096 % 0x100_0000_0000, true, flags.rw, flags.user, flags.ps,
                                         flags.cow, flags.rest)
    ensures paddr % 4096 == 0 && paddr < 0x10_0000_0000_0000 ==>
              Address(Leaf(Mapping(paddr, flags)), va) == paddr + va % 4096
  {
  }

  /** Inside one page, whatever its size, addresses move together, and the page starts where its frame does. */
  lemma AddressMoves(x: Found, va: nat, wa: nat)
    requires !x.Missing? && (x.Leaf? ==> x.e.present) && (x.Large? ==> x.rest == 1 || x.rest == 2)
    requires var size := if x.Leaf? then 0x1000 else if x.rest == 1 then 0x20_0000 else 0x4000_0000;
             va / size == wa / size && wa % size == 0
    ensures Address(x, wa) == x.e.frame * 4096 && Address(x, va) == Address(x, wa) + (va - wa)
  {
  }

  /** Nothing a translation can see differs, except at the pages in `changed`. */
  ghost predicate SameBut(was: Tables, now: Tables, root: nat, changed: iset<seq<nat>>) {
    forall idx | |idx| == LEVELS && InBounds(idx) && idx !in changed ::
      SameFound(Walk(now, root, idx), Walk(was, root, idx))
  }

  ghost predicate Extends(path: map<nat, seq<nat>>, path': map<nat, seq<nat>>) {
    forall f | f in path :: f in path' && path'[f] == path[f]
  }

  /** The tables that were added are exactly the frames that were taken. */
  ghost predicate Took(path: map<nat, seq<nat>>, path': map<nat, seq<nat>>, free: set<nat>, free': set<nat>) {
    Extends(path, path') && free' <= free && path'.Keys == path.Keys + (free - free')
  }

  /** Of the tables in use only those on the way to page `idx` of the tree may differ. */
  ghost predicate Beside(was: Tables, now: Tables, path: map<nat, seq<nat>>, free: set<nat>, idx: seq<nat>) {
    forall f {:trigger f in was} | f in was && f !in free && !(f in path && path[f] <= idx) ::
      f in now && now[f] == was[f]
  }

  /** The same for a step that wrote table `t` of the tree and frames that were free. */
  lemma BesideStep(t0: Tables, t1: Tables, t2: Tables, path: map<nat, seq<nat>>, path1: map<nat, seq<nat>>,
                   free: set<nat>, free1: set<nat>, idx: seq<nat>, t: nat)
    requires Beside(t0, t1, path, free, idx) && Took(path, path1, free, free1) && t in path1 && path1[t] <= idx
    requires forall f {:trigger f in t1} | f in t1 && f !in free1 && f != t :: f in t2 && t2[f] == t1[f]
    ensures Beside(t0, t2, path, free, idx)
  {
  }

  /** Of the tables in use only those on the way to one of `n` pages may differ. */
  ghost predicate BesideAll(was: Tables, now: Tables, path: map<nat, seq<nat>>, free: set<nat>, va: nat, n: nat) {
    forall f {:trigger f in was} | f in was && f !in free && !(f in path && OnWay(path[f], va, n)) ::
      f in now && now[f] == was[f]
  }

  ghost predicate OnWay(p: seq<nat>, va: nat, n: nat) { exists i: nat | i < n :: p <= PageAt(va, i) }

  lemma BesideNone(tables: Tables, path: map<nat, seq<nat>>, free: set<nat>, va: nat, n: nat)
    ensures BesideAll(tables, tables, path, free, va, n)
  {
  }

  lemma BesideMore(t0: Tables, t1: Tables, t2: Tables, path: map<nat, seq<nat>>, path1: map<nat, seq<nat>>,
                   free: set<nat>, free1: set<nat>, va: nat, n: nat, i: nat)
    requires BesideAll(t0, t1, path, free, va, n) && Took(path, path1, free, free1) && i < n
    requires Beside(t1, t2, path1, free1, PageAt(va, i))
    ensures BesideAll(t0, t2, path, free, va, n)
  {
    hide PageAt;
    forall f | f in t0 && f !in free && !(f in path && OnWay(path[f], va, n))
      ensures f in t2 && t2[f] == t0[f]
    {
      assert f in t1 && f !in free1;
      assert f in path1 ==> f in path && path1[f] == path[f];
    }
  }

  lemma TookTwice(a: map<nat, seq<nat>>, b: map<nat, seq<nat>>, c: map<nat, seq<nat>>, free: set<nat>, free1: set<nat>,
                  free2: set<nat>)
    requires Took(a, b, free, free1) && Took(b, c, free1, free2)
    ensures Took(a, c, free, free2)
  {
  }

  lemma TookNone(path: map<nat, seq<nat>>, free: set<nat>, tables: Tables, idx: seq<nat>)
    ensures Took(path, path, free, free) && Beside(tables, tables, path, free, idx)
  {
  }

  /** Entry `i` of table `f` leads to table `g`. */
  predicate Link(tables: Tables, f: nat, depth: nat, i: nat, g: nat, user: bool) {
    && IsTable(tables, f) && i < ENTRIES
    && HasChild(tables[f][i], depth) && tables[f][i].frame == g && (user ==> tables[f][i].user)
  }

  lemma {:induction false} SameLacking(tables: Tables, tables': Tables, root: nat, path: map<nat, seq<nat>>, f: nat,
                                       idx: seq<nat>)
    requires Tree(tables, root, path) && SameWays(tables, tables', path) && f in path
    requires idx != [] && InBounds(idx) && |path[f]| + |idx| == LEVELS && !Walk(tables, f, idx).Large?
    ensures Lacking(tables', f, idx) == Lacking(tables, f, idx)
    decreases |idx|
  {
    var e := tables[f][idx[0]];
    assert SameWay(e, tables'[f][idx[0]], |path[f]|);
    if |idx| > 1 && e.present {
      SameLacking(tables, tables', root, path, e.frame, idx[1..]);
    }
  }

  lemma SameForAll(tables: Tables, tables': Tables, root: nat, path: map<nat, seq<nat>>)
    requires Tree(tables, root, path) && SameWays(tables, tables', path)
    ensures Tree(tables', root, path) && SameBut(tables, tables', root, iset{})
  {
    SameTree(tables, tables', root, path);
    forall idx | |idx| == LEVELS && InBounds(idx)
      ensures Walk(tables', root, idx) == Walk(tables, root, idx)
    {
      SameWalk(tables, tables', root, path, root, idx);
    }
  }

  lemma NewForAll(tables: Tables, root: nat, path: map<nat, seq<nat>>, parent: nat, i: nat, child: nat, e: Pte)
    requires Tree(tables, root, path) && parent in path && i < ENTRIES && |path[parent]| < LEVELS - 1
    requires !tables[parent][i].present && child !in path && child != 0 && HasChild(e, |path[parent]|)
             && e.frame == child
    ensures var now := WithTable(tables, parent, i, child, e);
            Tree(now, root, path[child := path[parent] + [i]]) && SameBut(tables, now, root, iset{})
  {
    NewTableTree(tables, root, path, parent, i, child, e);
    forall idx | |idx| == LEVELS && InBounds(idx)
      ensures SameFound(Walk(WithTable(tables, parent, i, child, e), root, idx), Walk(tables, root, idx))
    {
      NewTableWalk(tables, root, path, parent, i, child, e, root, idx);
    }
  }

  lemma SameTwice(a: Tables, b: Tables, c: Tables, root: nat, changed: iset<seq<nat>>)
    requires SameBut(a, b, root, iset{}) && SameBut(b, c, root, changed)
    ensures SameBut(a, c, root, changed)
  {
  }

  lemma Rooted(tables: Tables, root: nat, path: map<nat, seq<nat>>)
    requires Tree(tables, root, path)
    ensures root in path && path[root] == [] && forall f | f in path :: IsTable(tables, f)
  {
  }

  lemma NotZero(tables: Tables, root: nat, path: map<nat, seq<nat>>)
    requires Tree(tables, root, path)
    ensures 0 !in path && root in path && forall f | f in path :: IsTable(tables, f)
  {
  }

  lemma InUse(tables: Tables, root: nat, path: map<nat, seq<nat>>, free: set<nat>)
    requires Tree(tables, root, path) && forall f | f in path :: f !in free
    ensures forall f | f in path :: f in tables && f !in free
  {
  }

  lemma TookIs(path: map<nat, seq<nat>>, path': map<nat, seq<nat>>, free: set<nat>, free': set<nat>)
    requires Took(path, path', free, free')
    ensures Extends(path, path')
  {
  }

  /** A link in another table than the one that was written. */
  lemma LinkKept(was: Tables, now: Tables, path: map<nat, seq<nat>>, f: nat, t: nat, depth: nat, i: nat, g: nat,
                 user: bool)
    requires Link(was, f, depth, i, g, user) && f in path && t in path && |path[f]| < |path[t]|
    requires f != t ==> f in was && f in now && now[f] == was[f]
    ensures Link(now, f, depth, i, g, user)
  {
  }

  lemma SameNothing(tables: Tables, root: nat)
    ensures SameBut(tables, tables, root, iset{})
  {
  }

  lemma BlankBelow(tables: Tables, t: nat, idx: seq<nat>)
    requires idx != [] && InBounds(idx) && t in tables && tables[t] == Blank()
    ensures !Walk(tables, t, idx).Large? && Lacking(tables, t, idx) == |idx| - 1
  {
  }

  lemma NoneLacking(tables: Tables, f: nat, idx: seq<nat>)
    requires |idx| == 1 && InBounds(idx)
    ensures Lacking(tables, f, idx) == 0
  {
  }

  /** Four linked tables are a walk. */
  lemma LinkedWalk(tables: Tables, root: nat, pdpt: nat, pd: nat, pt: nat, idx: seq<nat>, user: bool)
    requires |idx| == LEVELS && InBounds(idx) && IsTable(tables, pt)
    requires Link(tables, root, 0, idx[0], pdpt, user)
    requires Link(tables, pdpt, 1, idx[1], pd, user) && Link(tables, pd, 2, idx[2], pt, user)
    ensures Reaches(tables, root, idx, pt) && (user ==> UserPath(tables, root, idx))
    ensures Walk(tables, root, idx) == Leaf(tables[pt][idx[3]])
  {
    var idx1, idx2 := idx[1..], idx[1..][1..];
    assert idx1[0] == idx[1] && idx2[0] == idx[2] && idx2[1..][0] == idx[3];
    assert Reaches(tables, pt, idx2[1..], pt) && UserPath(tables, pt, idx2[1..]);
    assert Reaches(tables, pd, idx2, pt) && (user ==> UserPath(tables, pd, idx2));
    assert Reaches(tables, pdpt, idx1, pt) && (user ==> UserPath(tables, pdpt, idx1));
    assert Walk(tables, pd, idx2) == Leaf(tables[pt][idx[3]]);
    assert Walk(tables, pdpt, idx1) == Leaf(tables[pt][idx[3]]);
  }

  lemma {:induction false} LeafUser(tables: Tables, root: nat, path: map<nat, seq<nat>>, leaf: nat, i: nat, e: Pte,
                                    f: nat, idx: seq<nat>)
    requires Tree(tables, root, path) && leaf in path && |path[leaf]| == LEVELS - 1 && i < ENTRIES
    requires f in path && idx != [] && InBounds(idx) && |path[f]| + |idx| == LEVELS && Reaches(tables, f, idx, leaf)
    ensures UserPath(tables[leaf := tables[leaf][i := e]], f, idx) == UserPath(tables, f, idx)
    decreases |idx|
  {
    if |idx| > 1 {
      LeafUser(tables, root, path, leaf, i, e, tables[f][idx[0]].frame, idx[1..]);
    }
  }

  lemma LeafForAll(tables: Tables, root: nat, path: map<nat, seq<nat>>, leaf: nat, e: Pte, idx: seq<nat>)
    requires Tree(tables, root, path) && leaf in path && |idx| == LEVELS && InBounds(idx)
    requires path[leaf] == idx[..LEVELS - 1] && Reaches(tables, root, idx, leaf)
    ensures var now := tables[leaf := tables[leaf][idx[LEVELS - 1] := e]];
            && Tree(now, root, path) && SameBut(tables, now, root, iset{idx})
            && Walk(now, root, idx) == Leaf(e)
            && (UserPath(tables, root, idx) ==> UserPath(now, root, idx))
  {
    var i := idx[LEVELS - 1];
    LeafUser(tables, root, path, leaf, i, e, root, idx);
    assert path[leaf] + [i] == idx;
    LeafTree(tables, root, path, leaf, i, e);
    forall jdx | |jdx| == LEVELS && InBounds(jdx)
      ensures Walk(tables[leaf := tables[leaf][i := e]], root, jdx) == if jdx == idx then Leaf(e)
              else Walk(tables, root, jdx)
    {
      assert path[root] + jdx == jdx;
      LeafWalk(tables, root, path, leaf, i, e, root, jdx);
    }
  }

  /** One step of a walk down the tree. */
  lemma StepDown(tables: Tables, root: nat, path: map<nat, seq<nat>>, f: nat, idx: seq<nat>)
    requires Tree(tables, root, path) && f in path && 1 < |idx| && InBounds(idx) && |path[f]| + |idx| == LEVELS
    ensures IsTable(tables, f)
    ensures var e := tables[f][idx[0]];
            if !e.present then Walk(tables, f, idx) == Missing && Lacking(tables, f, idx) == |idx| - 1
            else if Ends(e, |idx|) then Walk(tables, f, idx) == Large(e, |idx| - 1)
            else && Link(tables, f, |path[f]|, idx[0], e.frame, false)
                 && e.frame in path && path[e.frame] == path[f] + [idx[0]] && IsTable(tables, e.frame)
                 && Walk(tables, f, idx) == Walk(tables, e.frame, idx[1..])
                 && Lacking(tables, f, idx) == Lacking(tables, e.frame, idx[1..])
  {
  }

  lemma LastStep(tables: Tables, f: nat, idx: seq<nat>)
    requires IsTable(tables, f) && |idx| == 1 && InBounds(idx)
    ensures Walk(tables, f, idx) == Leaf(tables[f][idx[0]]) && Lacking(tables, f, idx) == 0
  {
  }

  /** Page `i` of a range; addresses wrap at 2^64, which the indices, taken modulo 2^48, do not see. */
  function PageAt(va: nat, i: nat): (idx: seq<nat>)
    ensures |idx| == LEVELS && InBounds(idx)
  {
    Indices(va + i * PAGE_SIZE)
  }

  ghost function Pages(va: nat, n: nat): iset<seq<nat>> { iset i: nat | i < n :: PageAt(va, i) }

  const SPACE_PAGES: nat := 0x10_0000_0000  // 48-bit addresses

  lemma SpacesApart(p: nat, q: nat)
    requires p < q < p + SPACE_PAGES
    ensures p % SPACE_PAGES != q % SPACE_PAGES
  {
  }

  /** A range shorter than the address space has no page twice. */
  lemma PagesDiffer(va: nat, i: nat, j: nat)
    requires i < j < i + SPACE_PAGES
    ensures PageAt(va, i) != PageAt(va, j)
  {
    IndicesIff(va + i * PAGE_SIZE, va + j * PAGE_SIZE);
    var p := va / 0x1000;
    assert (va + i * 4096) / 0x1000 == p + i && (va + j * 4096) / 0x1000 == p + j;
    SpacesApart(p + i, p + j);
  }

  lemma SameMore(a: Tables, b: Tables, c: Tables, root: nat, va: nat, n: nat, changed: iset<seq<nat>>)
    requires SameBut(a, b, root, Pages(va, n)) && SameBut(b, c, root, changed)
    requires changed == iset{} || changed == iset{PageAt(va, n)}
    ensures SameBut(a, c, root, if changed == iset{} then Pages(va, n) else Pages(va, n + 1))
  {
  }

  lemma SameAt(a: Tables, b: Tables, root: nat, changed: iset<seq<nat>>, idx: seq<nat>)
    requires SameBut(a, b, root, changed) && |idx| == LEVELS && InBounds(idx) && idx !in changed
    ensures SameFound(Walk(b, root, idx), Walk(a, root, idx))
  {
  }

  lemma SameSelf(tables: Tables, root: nat, va: nat)
    ensures SameBut(tables, tables, root, Pages(va, 0))
  {
  }

  lemma SameSelfBut(tables: Tables, root: nat, idx: seq<nat>)
    ensures SameBut(tables, tables, root, iset{idx})
  {
  }

  lemma PageIs(va: nat, i: nat)
    ensures PageAt(va, i) == Indices(va + i * PAGE_SIZE)
  {
  }

  /** Mapping page `k` keeps the pages before it, and puts no large page anywhere. */
  lemma KeepPages(was: Tables, now: Tables, root: nat, va: nat, paddr: nat, flags: Pte, k: nat, n: nat,
                  changed: iset<seq<nat>>)
    requires k < n && SameBut(was, now, root, changed)
    requires changed == iset{} || (changed == iset{PageAt(va, k)} && Walk(now, root, PageAt(va, k)).Leaf?)
    requires forall j | 0 <= j < n :: !Walk(was, root, PageAt(va, j)).Large?
    ensures forall j | 0 <= j < n :: !Walk(now, root, PageAt(va, j)).Large?
    ensures n <= SPACE_PAGES ==> forall j | 0 <= j < k && Walk(was, root, PageAt(va, j))
            == Leaf(Mapping(paddr + j * PAGE_SIZE, flags)) ::
              Walk(now, root, PageAt(va, j)) == Leaf(Mapping(paddr + j * PAGE_SIZE, flags))
  {
    forall j | 0 <= j < n
      ensures !Walk(now, root, PageAt(va, j)).Large?
    {
      if PageAt(va, j) !in changed {
        SameAt(was, now, root, changed, PageAt(va, j));
      }
    }
    if n <= SPACE_PAGES {
      forall j | 0 <= j < k
        ensures SameFound(Walk(now, root, PageAt(va, j)), Walk(was, root, PageAt(va, j)))
      {
        PagesDiffer(va, j, k);
        SameAt(was, now, root, changed, PageAt(va, j));
      }
    }
  }

  class PageMap {
    const pfa: FrameAllocator
    var tables: Tables

    /** The tables under `root` form a tree; no frame of it is free to be handed out again. */
    ghost predicate Ok(root: nat, path: map<nat, seq<nat>>)
      reads this, pfa
    {
      && pfa.Valid() && 8 * |pfa.bitmap| <= FRAMES
      && Tree(tables, root, path)
      && (forall f | f in path :: f !in pfa.Free())
    }

    constructor (pfa: FrameAllocator)
      ensures this.pfa == pfa && tables == map[]
    {
      this.pfa := pfa;
      tables := map[];
    }

    method AllocZeroed() returns (f: nat)
      requires pfa.Valid() && 8 * |pfa.bitmap| <= FRAMES
      modifies this, pfa
      ensures pfa.Valid() && |pfa.bitmap| == old(|pfa.bitmap|)
      ensures f == 0 <==> old(pfa.Free()) == {}
      ensures f == 0 ==> tables == old(tables) && pfa.Free() == old(pfa.Free())
      ensures f != 0 ==> f in old(pfa.Free()) && f < FRAMES && pfa.Free() == old(pfa.Free()) - {f}
      ensures f != 0 ==> tables == old(tables)[f := Blank()] && forall g | g in old(pfa.Free()) :: f <= g
    {
      var paddr := pfa.Alloc();
      f := paddr / PAGE_SIZE;
      if paddr == 0 {
        return;
      }
      tables := tables[f := Blank()];
    }

    /** A new address space maps nothing. */
    method CreatePml4() returns (root: nat, ghost path: map<nat, seq<nat>>)
      requires pfa.Valid() && 8 * |pfa.bitmap| <= FRAMES
      modifies this, pfa
      ensures root == 0 <==> old(pfa.Free()) == {}
      ensures pfa.Valid() && |pfa.bitmap| == old(|pfa.bitmap|)
      ensures root == 0 ==> tables == old(tables) && pfa.Free() == old(pfa.Free())
      ensures root != 0 ==> && root in old(pfa.Free()) && pfa.Free() == old(pfa.Free()) - {root}
                            && tables == old(tables)[root := Blank()] && path == map[root := []]
                            && forall g | g in old(pfa.Free()) :: root <= g
      ensures root != 0 ==> Ok(root, path) && forall idx | |idx| == LEVELS && InBounds(idx) ::
              Absent(Walk(tables, root, idx))
    {
      root := AllocZeroed();
      path := map[root := []];
    }

    /** The table under parent[i], made if absent; `rest` is what is left of the walk from `parent`. */
    method EnsureTable(parent: nat, i: nat, user: bool, ghost rest: seq<nat>, ghost root: nat,
                       ghost path: map<nat, seq<nat>>)
      returns (child: nat, ghost path': map<nat, seq<nat>>)
      requires Ok(root, path) && parent in path && 1 < |rest| && InBounds(rest) && |path[parent]| + |rest| == LEVELS
      requires i == rest[0] && !Walk(tables, parent, rest).Large?
      modifies this, pfa
      ensures Ok(root, path') && Took(path, path', old(pfa.Free()), pfa.Free())
      ensures child == 0 ==>
                tables == old(tables) && pfa.Free() == {} && old(Lacking(tables, parent, rest)) > 0 == |old(pfa.Free())|
      ensures child != 0 ==> && child in path' && path'[child] == path[parent] + [i]
                             && Link(tables, parent, |path[parent]|, i, child, user)
                             && !Walk(tables, child, rest[1..]).Large?
                             && |old(pfa.Free())| - |pfa.Free()|
                                == old(Lacking(tables, parent, rest)) - Lacking(tables, child, rest[1..])
      ensures forall f {:trigger f in old(tables)} | f in old(tables) && f !in old(pfa.Free()) && f != parent ::
                f in tables && tables[f] == old(tables)[f]
      ensures SameBut(old(tables), tables, root, iset{})
    {
      hide Walk, Lacking, SameBut, Tree;
      StepDown(tables, root, path, parent, rest);
      var ent := tables[parent][i];
      path' := path;
      if ent.present {
        child := ent.frame;
        if user {
          tables := tables[parent := tables[parent][i := ent.(user := true)]];
        }
        assert SameWays(old(tables), tables, path);
        SameForAll(old(tables), tables, root, path);
        SameWalk(old(tables), tables, root, path, child, rest[1..]);
        SameLacking(old(tables), tables, root, path, child, rest[1..]);
        return;
      }
      child := AllocZeroed();
      if child == 0 {
        SameNothing(tables, root);
        return;
      }
      var newent := Pte(child % FRAMES, true, true, user, false, false, 0);
      tables := tables[parent := tables[parent][i := newent]];
      path' := path[child := path[parent] + [i]];
      assert tables == WithTable(old(tables), parent, i, child, newent);
      NotZero(old(tables), root, path);
      NewForAll(old(tables), root, path, parent, i, child, newent);
      BlankBelow(tables, child, rest[1..]);
      assert path'.Keys == path.Keys + (old(pfa.Free()) - pfa.Free());
    }

    /** The first two of the calls that make a last-level table for `idx`. */
    method ReachDirectory(root: nat, idx: seq<nat>, user: bool, ghost path: map<nat, seq<nat>>)
      returns (pdpt: nat, pd: nat, ghost path': map<nat, seq<nat>>)
      requires Ok(root, path) && |idx| == LEVELS && InBounds(idx) && !Walk(tables, root, idx).Large?
      modifies this, pfa
      ensures Ok(root, path') && SameBut(old(tables), tables, root, iset{})
      ensures Took(path, path', old(pfa.Free()), pfa.Free()) && Beside(old(tables), tables, path, old(pfa.Free()), idx)
      ensures pd == 0 ==> old(Lacking(tables, root, idx)) > |old(pfa.Free())| && pfa.Free() == {}
      ensures pd != 0 ==> && pd in path' && path'[pd] == idx[..2] && pdpt in path' && path'[pdpt] == idx[..1]
                          && root in path' && path'[root] == [] && !Walk(tables, pd, idx[2..]).Large?
                          && Link(tables, root, 0, idx[0], pdpt, user) && Link(tables, pdpt, 1, idx[1], pd, user)
                          && |old(pfa.Free())| - |pfa.Free()|
                             == old(Lacking(tables, root, idx)) - Lacking(tables, pd, idx[2..])
    {
      hide Walk, SameBut, Tree, Lacking, Reaches, UserPath, SameFound, HasChild, IsTable, Took, Beside, Link;
      ghost var t0, f0 := tables, pfa.Free();
      Rooted(tables, root, path);
      TookNone(path, f0, t0, idx);
      ghost var path1;
      pdpt, path1 := EnsureTable(root, idx[0], user, idx, root, path);
      BesideStep(t0, t0, tables, path, path, f0, f0, idx, root);
      if pdpt == 0 { return 0, 0, path1; }
      ghost var t1, f1 := tables, pfa.Free();
      pd, path' := EnsureTable(pdpt, idx[1], user, idx[1..], root, path1);
      BesideStep(t0, t1, tables, path, path1, f0, f1, idx, pdpt);
      TookTwice(path, path1, path', f0, f1, pfa.Free());
      SameTwice(t0, t1, tables, root, iset{});
      TookIs(path, path1, f0, f1);
      TookIs(path1, path', f1, pfa.Free());
      InUse(t1, root, path1, f1);
      LinkKept(t1, tables, path1, root, pdpt, 0, idx[0], pdpt, user);
      assert idx[1..][1..] == idx[2..] && [idx[0]] + [idx[1]] == idx[..2] && [] + [idx[0]] == idx[..1];
    }

    /** All three of them. */
    method ReachLast(root: nat, idx: seq<nat>, user: bool, ghost path: map<nat, seq<nat>>)
      returns (pt: nat, ghost path': map<nat, seq<nat>>)
      requires Ok(root, path) && |idx| == LEVELS && InBounds(idx) && !Walk(tables, root, idx).Large?
      modifies this, pfa
      ensures Ok(root, path') && SameBut(old(tables), tables, root, iset{})
      ensures Took(path, path', old(pfa.Free()), pfa.Free()) && Beside(old(tables), tables, path, old(pfa.Free()), idx)
      ensures pt != 0 <==> old(Lacking(tables, root, idx)) <= |old(pfa.Free())|
      ensures pt == 0 ==> pfa.Free() == {}
      ensures pt != 0 ==> |pfa.Free()| == |old(pfa.Free())| - old(Lacking(tables, root, idx))
      ensures pt != 0 ==> pt in path' && path'[pt] == idx[..3] && Reaches(tables, root, idx, pt)
      ensures pt != 0 && user ==> UserPath(tables, root, idx)
    {
      hide Walk, SameBut, Tree, Lacking, Reaches, UserPath, SameFound, HasChild, IsTable, Took, Beside, Link;
      ghost var t0, f0 := tables, pfa.Free();
      ghost var path2;
      var pdpt, pd;
      pdpt, pd, path2 := ReachDirectory(root, idx, user, path);
      if pd == 0 { return 0, path2; }
      ghost var t2, f2 := tables, pfa.Free();
      pt, path' := EnsureTable(pd, idx[2], user, idx[2..], root, path2);
      BesideStep(t0, t2, tables, path, path2, f0, f2, idx, pd);
      TookTwice(path, path2, path', f0, f2, pfa.Free());
      SameTwice(t0, t2, tables, root, iset{});
      if pt == 0 { return 0, path'; }
      Rooted(tables, root, path');
      InUse(t2, root, path2, f2);
      NoneLacking(tables, pt, idx[2..][1..]);
      LinkKept(t2, tables, path2, root, pd, 0, idx[0], pdpt, user);
      LinkKept(t2, tables, path2, pdpt, pd, 1, idx[1], pd, user);
      LinkedWalk(tables, root, pdpt, pd, pt, idx, user);
      assert idx[..2] + [idx[2]] == idx[..3];
    }

    /** Maps one page: afterwards exactly that page is found as asked, or nothing changed for want of frames. */
    method MapPage(root: nat, va: nat, paddr: nat, flags: Pte, ghost path: map<nat, seq<nat>>)
      returns (rc: int, ghost path': map<nat, seq<nat>>)
      requires root != 0 ==> Ok(root, path) && !Walk(tables, root, Indices(va)).Large?
      modifies this, pfa
      ensures rc == 0 || rc == -1
      ensures rc == 0 <==> root != 0 && old(Lacking(tables, root, Indices(va))) <= |old(pfa.Free())|
      ensures root == 0 ==> tables == old(tables) && unchanged(pfa)
      ensures root != 0 ==> Ok(root, path') && Took(path, path', old(pfa.Free()), pfa.Free())
      ensures root != 0 && rc == -1 ==> pfa.Free() == {}
      ensures rc == 0 ==> |pfa.Free()| == |old(pfa.Free())| - old(Lacking(tables, root, Indices(va)))
      ensures root != 0 ==> SameBut(old(tables), tables, root, if rc == 0 then iset{Indices(va)} else iset{})
      ensures root != 0 ==> Beside(old(tables), tables, path, old(pfa.Free()), Indices(va))
      ensures rc == 0 ==> Walk(tables, root, Indices(va)) == Leaf(Pte(paddr / 4096 % 0x100_0000_0000, true, flags.rw,
                                                                      flags.user, flags.ps, flags.cow, flags.rest))
      ensures rc == 0 && paddr % 4096 == 0 && paddr < 0x10_0000_0000_0000 ==>
                Address(Walk(tables, root, Indices(va)), va) == paddr + va % 4096
      ensures rc == 0 && flags.user ==> UserPath(tables, root, Indices(va))
    {
      hide Walk, SameBut, Tree, Lacking, Reaches, UserPath, SameFound, Indices, Mapping, Took, Beside;
      if root == 0 { return -1, path; }
      var idx := Indices(va);
      ghost var t0, free0 := tables, pfa.Free();
      var pt;
      pt, path' := ReachLast(root, idx, flags.user, path);
      if pt == 0 { return -1, path'; }
      Rooted(tables, root, path');
      ghost var was := tables;
      tables := tables[pt := tables[pt][idx[3] := Mapping(paddr, flags)]];
      LeafForAll(was, root, path', pt, Mapping(paddr, flags), idx);
      BesideStep(t0, was, tables, path, path', free0, pfa.Free(), idx, pt);
      SameTwice(old(tables), was, tables, root, iset{idx});
      MappingIs(paddr, flags, va);
      rc := 0;
    }

    /** Maps pages in order up to the first that finds no frame; `k` of them. */
    method MapRange(root: nat, va: nat, paddr: nat, n: nat, flags: Pte, ghost path: map<nat, seq<nat>>)
      returns (rc: int, ghost k: nat, ghost path': map<nat, seq<nat>>)
      requires root != 0 ==> Ok(root, path) && forall i | 0 <= i < n :: !Walk(tables, root, PageAt(va, i)).Large?
      modifies this, pfa
      ensures if rc == 0 then k == n else rc == -1 && k < n && (root != 0 ==> pfa.Free() == {})
      ensures root == 0 ==> tables == old(tables) && unchanged(pfa) && k == 0
      ensures root != 0 ==> Ok(root, path') && SameBut(old(tables), tables, root, Pages(va, k))
      ensures root != 0 ==> && Took(path, path', old(pfa.Free()), pfa.Free())
                            && BesideAll(old(tables), tables, path, old(pfa.Free()), va, n)
      ensures n <= SPACE_PAGES ==>
                forall i | 0 <= i < k :: Walk(tables, root, PageAt(va, i))
                    == Leaf(Pte((paddr + i * 4096) / 4096 % 0x100_0000_0000, true, flags.rw, flags.user, flags.ps,
                                flags.cow, flags.rest))
    {
      hide Walk, SameBut, Tree, Lacking, Mapping, PageAt, Took, Beside, BesideAll;
      path' := path;
      ghost var t0, free0 := tables, pfa.Free();
      TookNone(path, free0, t0, PageAt(va, 0));
      BesideNone(t0, path, free0, va, n);
      k := 0;
      rc := 0;
      forall i | 0 <= i < n { MappingIs(paddr + i * PAGE_SIZE, flags, 0); }
      SameSelf(tables, root, va);
      for i := 0 to n
        invariant k == i && (i > 0 ==> root != 0) && rc == 0
        invariant root == 0 ==> tables == old(tables) && unchanged(pfa)
        invariant root != 0 ==> Took(path, path', free0, pfa.Free()) && BesideAll(t0, tables, path, free0, va, n)
        invariant root != 0 ==> Ok(root, path') && SameBut(old(tables), tables, root, Pages(va, k))
        invariant root != 0 ==> forall j | 0 <= j < n :: !Walk(tables, root, PageAt(va, j)).Large?
        invariant n <= SPACE_PAGES ==>
                    forall j | 0 <= j < k :: Walk(tables, root, PageAt(va, j))
                        == Leaf(Mapping(paddr + j * PAGE_SIZE, flags))
      {
        ghost var was, path1, free1 := tables, path', pfa.Free();
        assert Indices(va + i * PAGE_SIZE) == PageAt(va, i) by { PageIs(va, i); }
        MappingIs(paddr + i * PAGE_SIZE, flags, 0);
        rc, path' := MapPage(root, va + i * PAGE_SIZE, paddr + i * PAGE_SIZE, flags, path');
        if root != 0 {
          BesideMore(t0, was, tables, path, path1, free0, free1, va, n, i);
          TookTwice(path, path1, path', free0, free1, pfa.Free());
        }
        if rc != 0 {
          if root != 0 {
            SameMore(old(tables), was, tables, root, va, k, iset{});
            KeepPages(was, tables, root, va, paddr, flags, k, n, iset{});
          }
          return;
        }
        SameMore(old(tables), was, tables, root, va, k, iset{PageAt(va, k)});
        KeepPages(was, tables, root, va, paddr, flags, k, n, iset{PageAt(va, k)});
        k := k + 1;
      }
    }

    /** Unmaps one page: exactly that one is gone. The code tells the level at which the walk failed. */
    method UnmapPage(root: nat, va: nat, ghost path: map<nat, seq<nat>>) returns (rc: int)
      requires root != 0 ==> Ok(root, path) && !Walk(tables, root, Indices(va)).Large?
      modifies this`tables
      ensures root == 0 ==> rc == -1 && tables == old(tables)
      ensures root != 0 ==> && var lacks := old(Lacking(tables, root, Indices(va)));
                               rc == if lacks == 0 then 0 else lacks - 5
      ensures root != 0 ==> Ok(root, path) && SameBut(old(tables), tables, root, iset{Indices(va)})
      ensures root != 0 ==> forall f {:trigger f in old(tables)} |
                f in old(tables) && !(f in path && path[f] == Indices(va)[..LEVELS - 1]) ::
                  f in tables && tables[f] == old(tables)[f]
      ensures root != 0 ==> Absent(Walk(tables, root, Indices(va)))
    {
      hide Walk, SameBut, Tree, Lacking;
      if root == 0 { return -1; }
      var idx := Indices(va);
      SameSelfBut(tables, root, idx);
      Rooted(tables, root, path);
      StepDown(tables, root, path, root, idx);
      if !tables[root][idx[0]].present { return -2; }
      var pdpt := tables[root][idx[0]].frame;
      StepDown(tables, root, path, pdpt, idx[1..]);
      if !tables[pdpt][idx[1]].present { return -3; }
      var pd := tables[pdpt][idx[1]].frame;
      StepDown(tables, root, path, pd, idx[1..][1..]);
      if !tables[pd][idx[2]].present { return -4; }
      var pt := tables[pd][idx[2]].frame;
      LinkedWalk(tables, root, pdpt, pd, pt, idx, false);
      LastStep(tables, pt, idx[1..][1..][1..]);
      LeafForAll(tables, root, path, pt, NO_ENTRY, idx);
      tables := tables[pt := tables[pt][idx[3] := NO_ENTRY]];
      rc := 0;
    }

    /** The physical address behind `va`, through 4 KiB, 2 MiB and 1 GiB pages. */
    method GetPhys(root: nat, va: nat, ghost path: map<nat, seq<nat>>) returns (pa: nat)
      requires root != 0 ==> Ok(root, path)
      ensures pa == if root == 0 then 0 else Address(Walk(tables, root, Indices(va)), va)
    {
      hide Walk, Tree, Lacking;
      if root == 0 { return 0; }
      var idx := Indices(va);
      Rooted(tables, root, path);
      StepDown(tables, root, path, root, idx);
      if !tables[root][idx[0]].present { return 0; }
      var pdpt := tables[root][idx[0]].frame;
      StepDown(tables, root, path, pdpt, idx[1..]);
      var ent3 := tables[pdpt][idx[1]];
      if !ent3.present { return 0; }
      if ent3.ps { return ent3.frame * PAGE_SIZE + va % 0x4000_0000; }
      var pd := ent3.frame;
      StepDown(tables, root, path, pd, idx[1..][1..]);
      var ent2 := tables[pd][idx[2]];
      if !ent2.present { return 0; }
      if ent2.ps { return ent2.frame * PAGE_SIZE + va % 0x20_0000; }
      var pt := ent2.frame;
      LastStep(tables, pt, idx[1..][1..][1..]);
      var ent1 := tables[pt][idx[3]];
      if !ent1.present { return 0; }
      return ent1.frame * PAGE_SIZE + va % 0x1000;
    }
  }
}
