/** Cloning an address space copy-on-write, table by table, and the write fault, over real page tables. */
module CowTables {
  import opened Bytes
  import opened Paging
  import opened PageTables
  import opened FrameAlloc
  import opened Mmu
  import R = Refcount

  const USER_HALF: nat := 256  // top-level entries from here on belong to the kernel and are shared

  /** The frames of the kernel image. */
  datatype Image = Image(lo: nat, hi: nat) {
    predicate Has(f: nat) { lo <= f < hi }
  }

  /** A present entry through which user frame `f` can be written. */
  predicate Writable(k: Image, e: Pte, f: nat) { e.present && e.rw && e.frame == f && !k.Has(f) }

  /** What cloning leaves in the source, and puts into the destination. */
  function Protected(k: Image, e: Pte): Pte {
    if e.present && e.rw && !k.Has(e.frame) then e.(rw := false, cow := true) else e
  }

  function Copied(k: Image, e: Pte): Pte { if e.present then Protected(k, e) else NO_ENTRY }

  function ProtectedFound(k: Image, x: Found): Found { if x.Leaf? then Leaf(Protected(k, x.e)) else x }

  function CopiedFound(k: Image, x: Found): Found { if x.Leaf? then Leaf(Copied(k, x.e)) else x }

  // ----- reference counts -----

  function Twice(n: nat): nat { if n + 2 <= R.MAX then n + 2 else R.MAX }

  /** The user frames in `w` were counted twice more, no other user frame was. */
  ghost predicate Bumped(k: Image, refs: seq<nat>, refs': seq<nat>, w: iset<nat>) {
    && |refs'| == |refs|
    && (forall f {:trigger refs'[f]} | 0 <= f < |refs| && refs[f] <= R.MAX :: refs[f] <= refs'[f] <= R.MAX)
    && (forall f {:trigger refs'[f]} | 0 <= f < |refs| && !k.Has(f) && refs[f] <= R.MAX ::
          refs'[f] == if f in w then Twice(refs[f]) else refs[f])
  }

  ghost predicate Bounded(refs: seq<nat>) { forall f | 0 <= f < |refs| :: refs[f] <= R.MAX }

  /** The new frame counts one, the old one a mapping less, and no other count moved. */
  ghost predicate Recounted(refs: seq<nat>, refs': seq<nat>, from: nat, to: nat) {
    && |refs'| == |refs|
    && forall f {:trigger refs'[f]} | 0 <= f < |refs| ::
         refs'[f] == if f == to then 1 else if f == from && refs[f] > 0 then refs[f] - 1 else refs[f]
  }

  lemma BumpedJoin(k: Image, a: seq<nat>, b: seq<nat>, c: seq<nat>, v: iset<nat>, w: iset<nat>)
    requires Bounded(a) && Bumped(k, a, b, v) && Bumped(k, b, c, w) && v !! w
    ensures Bumped(k, a, c, v + w) && Bounded(c)
  {
  }

  lemma BumpedNone(k: Image, refs: seq<nat>)
    requires Bounded(refs)
    ensures Bumped(k, refs, refs, iset{})
  {
  }

  // ----- one last-level table -----

  ghost function WrittenIn(k: Image, es: seq<Pte>, n: nat): iset<nat>
    requires n <= |es|
  {
    iset f: nat | WritesBelow(k, es, n, f)
  }

  ghost predicate WritesBelow(k: Image, es: seq<Pte>, n: nat, f: nat)
    requires n <= |es|
  {
    exists i | 0 <= i < n :: Writable(k, es[i], f)
  }

  /** No user frame is writable through two entries. */
  ghost predicate OneWriterIn(k: Image, es: seq<Pte>) {
    forall i, j, f | 0 <= i < j < |es| && Writable(k, es[i], f) :: !Writable(k, es[j], f)
  }

  function ProtectedAll(k: Image, es: seq<Pte>): (r: seq<Pte>)
    ensures |r| == |es| && forall i | 0 <= i < |es| :: r[i] == Protected(k, es[i])
  {
    seq(|es|, i requires 0 <= i < |es| => Protected(k, es[i]))
  }

  function CopiedAll(k: Image, es: seq<Pte>): (r: seq<Pte>)
    ensures |r| == |es| && forall i | 0 <= i < |es| :: r[i] == Copied(k, es[i])
  {
    seq(|es|, i requires 0 <= i < |es| => Copied(k, es[i]))
  }

  lemma WrittenMore(k: Image, es: seq<Pte>, i: nat)
    requires i < |es| && OneWriterIn(k, es)
    ensures var e := es[i];
            var w := if e.present && e.rw && !k.Has(e.frame) then iset{e.frame} else iset{};
            WrittenIn(k, es, i + 1) == WrittenIn(k, es, i) + w && WrittenIn(k, es, i) !! w
  {
  }

  lemma IncTwice(k: Image, refs: seq<nat>, f: nat)
    requires Bounded(refs) && !k.Has(f)
    ensures Bumped(k, refs, R.Inc(R.Inc(refs, f), f), iset{f})
  {
  }

  lemma IncKernel(k: Image, refs: seq<nat>, f: nat)
    requires Bounded(refs) && k.Has(f)
    ensures Bumped(k, refs, R.Inc(refs, f), iset{})
  {
  }

  // ----- subtrees -----

  predicate WritesAt(k: Image, x: Found, f: nat) { x.Leaf? && Writable(k, x.e, f) }

  predicate IsPath(idx: seq<nat>, n: nat) { |idx| == n && InBounds(idx) }

  /** Frame `f` can be written through a page below table `t` whose first index is `i`. */
  ghost predicate WritesVia(k: Image, tables: Tables, t: nat, n: nat, i: nat, f: nat)
    requires n > 0
  {
    exists idx: seq<nat> :: IsPath(idx, n) && idx[0] == i && WritesAt(k, Walk(tables, t, idx), f)
  }

  ghost function WrittenVia(k: Image, tables: Tables, t: nat, n: nat, i: nat): iset<nat>
    requires n > 0
  {
    iset f: nat | WritesVia(k, tables, t, n, i, f)
  }

  ghost predicate WritesUnder(k: Image, tables: Tables, t: nat, n: nat, upto: nat, f: nat)
    requires n > 0
  {
    exists i: nat | i < upto :: WritesVia(k, tables, t, n, i, f)
  }

  ghost function WrittenUnder(k: Image, tables: Tables, t: nat, n: nat, upto: nat): iset<nat>
    requires n > 0
  {
    iset f: nat | WritesUnder(k, tables, t, n, upto, f)
  }

  /** No user frame is writable through two pages below `t` with first index under `upto`. */
  ghost predicate OneWriter(k: Image, tables: Tables, t: nat, n: nat, upto: nat)
    requires n > 0
  {
    forall idx: seq<nat>, jdx: seq<nat>, f: nat {:trigger WritesAt(k, Walk(tables, t, idx), f),
        WritesAt(k, Walk(tables, t, jdx), f)} |
      IsPath(idx, n) && IsPath(jdx, n) && idx[0] < upto && jdx[0] < upto
      && WritesAt(k, Walk(tables, t, idx), f) && WritesAt(k, Walk(tables, t, jdx), f) ::
      idx == jdx
  }

  lemma UnderMore(k: Image, tables: Tables, t: nat, n: nat, i: nat)
    requires n > 0 && OneWriter(k, tables, t, n, i + 1)
    ensures WrittenUnder(k, tables, t, n, i + 1) == WrittenUnder(k, tables, t, n, i) + WrittenVia(k, tables, t, n, i)
    ensures WrittenUnder(k, tables, t, n, i) !! WrittenVia(k, tables, t, n, i)
  {
  }

  /** What is written via entry `i` is what is written below the table it leads to. */
  lemma ViaChild(k: Image, tables: Tables, t: nat, n: nat, i: nat)
    requires n > 1 && IsTable(tables, t) && i < ENTRIES
    ensures var e := tables[t][i];
            WrittenVia(k, tables, t, n, i)
            == if e.present && !Ends(e, n) then WrittenUnder(k, tables, e.frame, n - 1, ENTRIES) else iset{}
  {
    var e := tables[t][i];
    forall f: nat
      ensures WritesVia(k, tables, t, n, i, f) <==>
              e.present && !Ends(e, n) && WritesUnder(k, tables, e.frame, n - 1, ENTRIES, f)
    {
      if WritesVia(k, tables, t, n, i, f) {
        var idx: seq<nat> :| IsPath(idx, n) && idx[0] == i && WritesAt(k, Walk(tables, t, idx), f);
        assert IsPath(idx[1..], n - 1) && WritesAt(k, Walk(tables, e.frame, idx[1..]), f);
        assert WritesVia(k, tables, e.frame, n - 1, idx[1], f);
      }
      if e.present && !Ends(e, n) && WritesUnder(k, tables, e.frame, n - 1, ENTRIES, f) {
        var j: nat :| j < ENTRIES && WritesVia(k, tables, e.frame, n - 1, j, f);
        var jdx: seq<nat> :| IsPath(jdx, n - 1) && jdx[0] == j && WritesAt(k, Walk(tables, e.frame, jdx), f);
        var idx := [i] + jdx;
        assert idx[1..] == jdx && IsPath(idx, n);
        assert Walk(tables, t, idx) == Walk(tables, e.frame, jdx);
      }
    }
  }

  lemma OneWriterChild(k: Image, tables: Tables, t: nat, n: nat, i: nat)
    requires n > 1 && IsTable(tables, t) && i < ENTRIES && OneWriter(k, tables, t, n, i + 1)
    requires tables[t][i].present && !Ends(tables[t][i], n)
    ensures OneWriter(k, tables, tables[t][i].frame, n - 1, ENTRIES)
  {
    var c := tables[t][i].frame;
    forall idx: seq<nat>, jdx: seq<nat>, f: nat |
      IsPath(idx, n - 1) && IsPath(jdx, n - 1) && WritesAt(k, Walk(tables, c, idx), f)
          && WritesAt(k, Walk(tables, c, jdx), f)
      ensures idx == jdx
    {
      var idx', jdx' := [i] + idx, [i] + jdx;
      assert idx'[1..] == idx && jdx'[1..] == jdx && IsPath(idx', n) && IsPath(jdx', n);
      assert WritesAt(k, Walk(tables, t, idx'), f) && WritesAt(k, Walk(tables, t, jdx'), f);
    }
  }

  /** A last-level table is a subtree of depth one. */
  lemma LastUnder(k: Image, tables: Tables, t: nat)
    requires IsTable(tables, t)
    ensures WrittenUnder(k, tables, t, 1, ENTRIES) == WrittenIn(k, tables[t], ENTRIES)
    ensures OneWriter(k, tables, t, 1, ENTRIES) ==> OneWriterIn(k, tables[t])
  {
    var es := tables[t];
    assert forall i: nat | i < ENTRIES :: Walk(tables, t, [i]) == Leaf(es[i]) && IsPath([i], 1);
    forall f: nat
      ensures WritesUnder(k, tables, t, 1, ENTRIES, f) <==> WritesBelow(k, es, ENTRIES, f)
    {
      if WritesUnder(k, tables, t, 1, ENTRIES, f) {
        var i: nat :| i < ENTRIES && WritesVia(k, tables, t, 1, i, f);
        var idx: seq<nat> :| IsPath(idx, 1) && idx[0] == i && WritesAt(k, Walk(tables, t, idx), f);
        assert Writable(k, es[i], f);
      }
      if WritesBelow(k, es, ENTRIES, f) {
        var i :| 0 <= i < ENTRIES && Writable(k, es[i], f);
        assert WritesAt(k, Walk(tables, t, [i]), f) && [i][0] == i;
        assert WritesVia(k, tables, t, 1, i, f);
      }
    }
    if OneWriter(k, tables, t, 1, ENTRIES) {
      forall i, j, f | 0 <= i < j < ENTRIES && Writable(k, es[i], f)
        ensures !Writable(k, es[j], f)
      {
        assert WritesAt(k, Walk(tables, t, [i]), f);
        assert [i] != [j];
        assert !WritesAt(k, Walk(tables, t, [j]), f);
      }
    }
  }

  // ----- two trees side by side -----

  type Places = map<nat, seq<nat>>

  predicate Low(p: seq<nat>) { p != [] ==> p[0] < USER_HALF }

  /** Source and destination share only tables of the kernel's half. */
  ghost predicate Apart(sp: Places, dp: Places) {
    forall f {:trigger f in dp} | f in sp && f in dp :: sp[f] == dp[f] && !Low(sp[f])
  }

  /** Only the source's last-level user tables below `s`, the destination's own tables from `d` down and free frames
      changed. */
  ghost predicate Unmoved(was: Tables, now: Tables, sp: Places, s: nat, dp: Places, d: nat, free: set<nat>)
    requires s in sp && d in dp
  {
    forall f {:trigger f in was} | f in was && f !in free
        && !(f in sp && sp[s] <= sp[f] && |sp[f]| == LEVELS - 1 && Low(sp[f]))
        && !(f in dp && dp[d] <= dp[f] && Low(dp[f])) ::
      f in now && now[f] == was[f]
  }

  lemma {:induction false} WalkKept(was: Tables, now: Tables, root: nat, path: Places, t: nat, idx: seq<nat>)
    requires Tree(was, root, path) && t in path && idx != [] && InBounds(idx) && |path[t]| + |idx| == LEVELS
    requires forall f | f in path && path[t] <= path[f] :: f in now && now[f] == was[f]
    ensures Walk(now, t, idx) == Walk(was, t, idx)
    decreases |idx|
  {
    assert path[t] <= path[t];
    var e := was[t][idx[0]];
    if |idx| > 1 && e.present && !Ends(e, |idx|) {
      var c := e.frame;
      assert path[c] == path[t] + [idx[0]];
      forall f | f in path && path[c] <= path[f]
        ensures f in now && now[f] == was[f]
      {
        assert path[t] <= path[f];
      }
      WalkKept(was, now, root, path, c, idx[1..]);
    }
  }

  lemma TreeKept(was: Tables, now: Tables, root: nat, path: Places)
    requires Tree(was, root, path) && forall f | f in path :: f in now && now[f] == was[f]
    ensures Tree(now, root, path)
  {
  }

  lemma PrefixOnce(p: seq<nat>, i: nat, j: nat, q: seq<nat>)
    requires p + [i] <= q && p + [j] <= q
    ensures i == j
  {
    assert q[|p|] == (p + [i])[|p|] == (p + [j])[|p|];
  }

  lemma PrefixLonger(p: seq<nat>, i: nat, q: seq<nat>)
    ensures p + [i] <= q ==> p <= q
  {
  }

  /** A walk that starts with another index does not see what happened below entry `i`. */
  lemma WalkBeside(was: Tables, now: Tables, root: nat, path: Places, t: nat, i: nat, idx: seq<nat>)
    requires Tree(was, root, path) && t in path && idx != [] && InBounds(idx) && |path[t]| + |idx| == LEVELS
    requires idx[0] != i && IsTable(now, t) && now[t][idx[0]] == was[t][idx[0]]
    requires forall f | f in path && f != t && !(path[t] + [i] <= path[f]) && path[t] <= path[f] ::
               f in now && now[f] == was[f]
    ensures Walk(now, t, idx) == Walk(was, t, idx)
  {
    var e := was[t][idx[0]];
    if |idx| > 1 && e.present && !Ends(e, |idx|) {
      var c := e.frame;
      assert path[c] == path[t] + [idx[0]];
      forall f | f in path && path[c] <= path[f]
        ensures f in now && now[f] == was[f]
      {
        if path[t] + [i] <= path[f] { PrefixOnce(path[t], i, idx[0], path[f]); }
        assert path[t] <= path[f];
      }
      WalkKept(was, now, root, path, c, idx[1..]);
    }
  }

  /** The destination gained only tables from free frames, and shared ones. */
  ghost predicate NewFrom(sp: Places, dp: Places, dp': Places, free: set<nat>) {
    Extends(dp, dp') && forall f | f in dp' && f !in dp :: f in free || (f in sp && sp[f] == dp'[f] && !Low(sp[f]))
  }

  // ----- what cloning one entry, or one table, has done -----

  /** Top-level entries of the kernel's half. */
  predicate IsShared(n: nat, i: nat) { n == LEVELS && i >= USER_HALF }

  function Limit(n: nat, i: nat): nat { if n == LEVELS && i > USER_HALF then USER_HALF else i }

  ghost predicate ClonedAt(k: Image, was: Tables, now: Tables, s: nat, d: nat, n: nat, idx: seq<nat>)
    requires n > 0 && IsPath(idx, n)
  {
    var x := Walk(was, s, idx);
    if IsShared(n, idx[0]) then Walk(now, s, idx) == x && SameFound(Walk(now, d, idx), x)
    else Walk(now, s, idx) == ProtectedFound(k, x) && SameFound(Walk(now, d, idx), CopiedFound(k, x))
  }

  ghost predicate ClonedAll(k: Image, was: Tables, now: Tables, s: nat, d: nat, n: nat, upto: nat)
    requires n > 0
  {
    forall idx: seq<nat> | IsPath(idx, n) && idx[0] < upto :: ClonedAt(k, was, now, s, d, n, idx)
  }

  ghost predicate ClonedVia(k: Image, was: Tables, now: Tables, s: nat, d: nat, n: nat, i: nat)
    requires n > 0
  {
    forall idx: seq<nat> | IsPath(idx, n) && idx[0] == i :: ClonedAt(k, was, now, s, d, n, idx)
  }

  /** Page `idx` of the source is as it was, or it was writable, is protected now and its frame counts as shared. */
  ghost predicate HalfAt(k: Image, was: Tables, now: Tables, refs: seq<nat>, s: nat, n: nat, idx: seq<nat>)
    requires n > 0 && IsPath(idx, n)
  {
    var x, y := Walk(was, s, idx), Walk(now, s, idx);
    || y == x
    || (&& !IsShared(n, idx[0]) && x.Leaf? && Writable(k, x.e, x.e.frame) && y == Leaf(Protected(k, x.e))
        && (x.e.frame < |refs| ==> R.IsShared(refs, x.e.frame)))
  }

  ghost predicate HalfVia(k: Image, was: Tables, now: Tables, refs: seq<nat>, s: nat, n: nat, i: nat)
    requires n > 0
  {
    forall idx: seq<nat> | IsPath(idx, n) && idx[0] == i :: HalfAt(k, was, now, refs, s, n, idx)
  }

  ghost predicate HalfAll(k: Image, was: Tables, now: Tables, refs: seq<nat>, s: nat, n: nat)
    requires n > 0
  {
    forall idx: seq<nat> | IsPath(idx, n) :: HalfAt(k, was, now, refs, s, n, idx)
  }

  /** No count went down, and none passed the maximum. */
  ghost predicate Grew(refs: seq<nat>, refs': seq<nat>) {
    |refs'| == |refs| && forall f {:trigger refs'[f]} | 0 <= f < |refs| :: refs[f] <= refs'[f] <= R.MAX
  }

  lemma HalfSelf(k: Image, tables: Tables, refs: seq<nat>, s: nat, n: nat, i: nat)
    requires n > 0 && Bounded(refs)
    ensures HalfVia(k, tables, tables, refs, s, n, i) && HalfAll(k, tables, tables, refs, s, n) && Grew(refs, refs)
  {
  }

  ghost predicate BesideVia(was: Tables, now: Tables, t: nat, n: nat, i: nat)
    requires n > 0
  {
    forall idx: seq<nat> {:trigger Walk(now, t, idx)} | IsPath(idx, n) && idx[0] != i ::
      Walk(now, t, idx) == Walk(was, t, idx)
  }

  ghost function UserVia(k: Image, tables: Tables, t: nat, n: nat, i: nat): iset<nat>
    requires n > 0
  {
    if IsShared(n, i) then iset{} else WrittenVia(k, tables, t, n, i)
  }

  /** Two sound trees over the same tables. */
  ghost predicate Pair(tables: Tables, free: set<nat>, sroot: nat, sp: Places, droot: nat, dp: Places) {
    && Tree(tables, sroot, sp) && Tree(tables, droot, dp) && Apart(sp, dp)
    && (forall f | f in sp :: f !in free) && (forall f | f in dp :: f !in free)
  }

  /** Tables `s` and `d` stand at the same place, `n` levels from the pages. */
  ghost predicate Match(sp: Places, s: nat, dp: Places, d: nat, n: nat) {
    0 < n <= LEVELS && s in sp && d in dp && sp[s] == dp[d] && |sp[s]| + n == LEVELS && Low(sp[s])
  }

  /** Nothing but entry `i` of `d`, what hangs below it, and the pages below entry `i` of `s` was touched. */
  ghost predicate Confined(was: Tables, now: Tables, sp: Places, s: nat, dp: Places, d: nat, n: nat, i: nat,
                           free: set<nat>)
    requires Match(sp, s, dp, d, n)
  {
    && Unmoved(was, now, sp, s, dp, d, free)
    && IsTable(was, s) && IsTable(was, d) && IsTable(now, s) && IsTable(now, d) && now[s] == was[s]
    && (forall j | 0 <= j < ENTRIES && j != i :: now[d][j] == was[d][j])
    && BesideVia(was, now, s, n, i) && BesideVia(was, now, d, n, i)
  }

  lemma MatchFacts(tables: Tables, free: set<nat>, sroot: nat, sp: Places, droot: nat, dp: Places, s: nat, d: nat,
                   n: nat)
    requires Pair(tables, free, sroot, sp, droot, dp) && Match(sp, s, dp, d, n)
    ensures IsTable(tables, s) && IsTable(tables, d) && d !in sp && s !in dp && s != d
  {
  }

  lemma NothingThere(k: Image, tables: Tables, s: nat, d: nat, n: nat, i: nat)
    requires 1 < n && i < ENTRIES && IsTable(tables, s) && IsTable(tables, d)
    requires !tables[s][i].present && tables[d][i] == NO_ENTRY
    ensures ClonedVia(k, tables, tables, s, d, n, i) && UserVia(k, tables, s, n, i) == iset{}
  {
  }

  /** The entry is copied as it is: a large page. */
  lemma LargeThere(k: Image, was: Tables, now: Tables, s: nat, d: nat, n: nat, i: nat, e: Pte)
    requires 1 < n < LEVELS && i < ENTRIES && IsTable(was, s) && IsTable(was, d) && s != d
    requires e == was[s][i] && e.present && e.ps && now == was[d := was[d][i := e]]
    ensures ClonedVia(k, was, now, s, d, n, i) && UserVia(k, was, s, n, i) == iset{}
  {
  }

  /** Only entry `i` of `d` differs. */
  lemma OneEntry(was: Tables, now: Tables, free: set<nat>, sroot: nat, sp: Places, droot: nat, dp: Places, s: nat,
                 d: nat, n: nat, i: nat, e: Pte)
    requires Pair(was, free, sroot, sp, droot, dp) && Match(sp, s, dp, d, n) && i < ENTRIES
    requires IsTable(was, d) && now == was[d := was[d][i := e]]
    ensures Confined(was, now, sp, s, dp, d, n, i, free) && Tree(now, sroot, sp)
  {
    MatchFacts(was, free, sroot, sp, droot, dp, s, d, n);
    TreeKept(was, now, sroot, sp);
    forall idx: seq<nat> | IsPath(idx, n) && idx[0] != i
      ensures Walk(now, s, idx) == Walk(was, s, idx) && Walk(now, d, idx) == Walk(was, d, idx)
    {
      WalkBeside(was, now, sroot, sp, s, i, idx);
      WalkBeside(was, now, droot, dp, d, i, idx);
    }
  }

  lemma LargeTree(was: Tables, now: Tables, root: nat, path: Places, d: nat, i: nat, e: Pte)
    requires Tree(was, root, path) && d in path && i < ENTRIES && now == was[d := was[d][i := e]]
    requires !HasChild(e, |path[d]|)
    ensures Tree(now, root, path)
  {
  }

  /** The source's tables below top-level entry `i`, for the destination to share. */
  ghost function Shares(sp: Places, i: nat): Places { map f | f in sp && [i] <= sp[f] :: sp[f] }

  lemma SharedThere(k: Image, was: Tables, now: Tables, free: set<nat>, sroot: nat, sp: Places, droot: nat, dp: Places,
                    s: nat, d: nat, i: nat, e: Pte)
    requires Pair(was, free, sroot, sp, droot, dp) && Match(sp, s, dp, d, LEVELS) && USER_HALF <= i < ENTRIES
    requires IsTable(was, d) && IsTable(was, s) && e == was[s][i] && e.present && now == was[d := was[d][i := e]]
    ensures Pair(now, free, sroot, sp, droot, dp + Shares(sp, i)) && Extends(dp, dp + Shares(sp, i))
    ensures ClonedVia(k, was, now, s, d, LEVELS, i)
  {
    MatchFacts(was, free, sroot, sp, droot, dp, s, d, LEVELS);
    TreeKept(was, now, sroot, sp);
    var dp' := dp + Shares(sp, i);
    assert sp[e.frame] == [i];
    SharedTree(was, now, sroot, sp, droot, dp, s, d, i, e);
    forall idx: seq<nat> | IsPath(idx, LEVELS) && idx[0] == i
      ensures ClonedAt(k, was, now, s, d, LEVELS, idx)
    {
      WalkKept(was, now, sroot, sp, e.frame, idx[1..]);
    }
  }

  lemma SharedTree(was: Tables, now: Tables, sroot: nat, sp: Places, droot: nat, dp: Places, s: nat, d: nat, i: nat,
                   e: Pte)
    requires Tree(was, sroot, sp) && Tree(was, droot, dp) && Apart(sp, dp) && s in sp && d in dp && d !in sp
    requires sp[s] == [] == dp[d] && USER_HALF <= i < ENTRIES && e == was[s][i] && e.present
             && now == was[d := was[d][i := e]]
    ensures Tree(now, droot, dp + Shares(sp, i)) && Apart(sp, dp + Shares(sp, i)) && Extends(dp, dp + Shares(sp, i))
  {
    var more := Shares(sp, i);
    var dp' := dp + more;
    assert sp[e.frame] == [] + [i];
    assert forall f | f in more :: sp[f] == more[f] && !Low(sp[f]);
    forall f, j | f in dp' && 0 <= j < ENTRIES && HasChild(now[f][j], |dp'[f]|)
      ensures now[f][j].frame in dp' && dp'[now[f][j].frame] == dp'[f] + [j]
    {
      if f in more {
        assert was[f][j] == now[f][j];
        assert [i] <= sp[f] + [j];
      } else if !(f == d && j == i) {
        assert was[f][j] == now[f][j];
        assert was[f][j].frame in dp;
      }
    }
  }

  /** Before the tables below entry `i` are cloned: an empty table `c` hangs in the destination. */
  lemma ChildBefore(k: Image, was: Tables, now: Tables, free: set<nat>, sroot: nat, sp: Places, droot: nat, dp: Places,
                    s: nat, d: nat, n: nat, i: nat, c: nat, e: Pte)
    requires Pair(was, free, sroot, sp, droot, dp) && Match(sp, s, dp, d, n) && 1 < n && i < ENTRIES && !IsShared(n, i)
    requires IsTable(was, d) && IsTable(was, s) && e == was[s][i] && e.present && !Ends(e, n) && was[d][i] == NO_ENTRY
    requires c in free && c != 0 && now == WithTable(was, d, i, c, e.(frame := c))
    requires OneWriter(k, was, s, n, Limit(n, ENTRIES))
    ensures var dp1 := dp[c := dp[d] + [i]];
            && Pair(now, free - {c}, sroot, sp, droot, dp1) && Match(sp, e.frame, dp1, c, n - 1)
            && c in now && now[c] == Blank() && OneWriter(k, now, e.frame, n - 1, ENTRIES)
            && UserVia(k, was, s, n, i) == WrittenUnder(k, now, e.frame, n - 1, ENTRIES)
  {
    MatchFacts(was, free, sroot, sp, droot, dp, s, d, n);
    NewTableTree(was, droot, dp, d, i, c, e.(frame := c));
    TreeKept(was, now, sroot, sp);
    assert sp[e.frame] == sp[s] + [i];
    OneWriterChild(k, was, s, n, i);
    ViaChild(k, was, s, n, i);
    forall idx: seq<nat> | IsPath(idx, n - 1)
      ensures Walk(now, e.frame, idx) == Walk(was, e.frame, idx)
    {
      WalkKept(was, now, sroot, sp, e.frame, idx);
    }
    SameWrites(k, was, now, e.frame, n - 1);
  }

  lemma SameWrites(k: Image, was: Tables, now: Tables, t: nat, n: nat)
    requires n > 0 && forall idx: seq<nat> | IsPath(idx, n) :: Walk(now, t, idx) == Walk(was, t, idx)
    ensures WrittenUnder(k, now, t, n, ENTRIES) == WrittenUnder(k, was, t, n, ENTRIES)
    ensures OneWriter(k, was, t, n, ENTRIES) ==> OneWriter(k, now, t, n, ENTRIES)
  {
    forall f: nat, i: nat
      ensures WritesVia(k, now, t, n, i, f) <==> WritesVia(k, was, t, n, i, f)
    {
    }
    assert forall f: nat :: WritesUnder(k, now, t, n, ENTRIES, f) <==> WritesUnder(k, was, t, n, ENTRIES, f);
  }

  /** After the tables below entry `i` were cloned. */
  lemma ChildAfter(k: Image, t0: Tables, t1: Tables, t2: Tables, free: set<nat>, sroot: nat, sp: Places, droot: nat,
                   dp: Places, s: nat, d: nat, n: nat, i: nat, c: nat, e: Pte, refs: seq<nat>, ok: bool)
    requires Pair(t0, free, sroot, sp, droot, dp) && Match(sp, s, dp, d, n) && 1 < n && i < ENTRIES && !IsShared(n, i)
    requires IsTable(t0, d) && IsTable(t0, s) && e == t0[s][i] && e.present && !Ends(e, n) && t0[d][i] == NO_ENTRY
    requires c in free && c != 0 && t1 == WithTable(t0, d, i, c, e.(frame := c))
    requires Match(sp, e.frame, dp[c := dp[d] + [i]], c, n - 1)
    requires Unmoved(t1, t2, sp, e.frame, dp[c := dp[d] + [i]], c, free - {c})
    requires if ok then ClonedAll(k, t1, t2, e.frame, c, n - 1, ENTRIES) else HalfAll(k, t1, t2, refs, e.frame, n - 1)
    ensures Confined(t0, t2, sp, s, dp, d, n, i, free)
    ensures if ok then ClonedVia(k, t0, t2, s, d, n, i) else HalfVia(k, t0, t2, refs, s, n, i)
  {
    MatchFacts(t0, free, sroot, sp, droot, dp, s, d, n);
    var dp1 := dp[c := dp[d] + [i]];
    assert !(dp1[c] <= dp1[d]) && d in t1 && s in t1;
    assert t2[s] == t1[s] == t0[s] && t2[d] == t1[d];
    ChildBeside(t0, t1, t2, free, sroot, sp, droot, dp, s, d, n, i, c, e);
    if ok {
      forall idx: seq<nat> | IsPath(idx, n) && idx[0] == i
        ensures ClonedAt(k, t0, t2, s, d, n, idx)
      {
        WalkKept(t0, t1, sroot, sp, e.frame, idx[1..]);
        assert ClonedAt(k, t1, t2, e.frame, c, n - 1, idx[1..]);
      }
    } else {
      forall idx: seq<nat> | IsPath(idx, n) && idx[0] == i
        ensures HalfAt(k, t0, t2, refs, s, n, idx)
      {
        WalkKept(t0, t1, sroot, sp, e.frame, idx[1..]);
        assert HalfAt(k, t1, t2, refs, e.frame, n - 1, idx[1..]);
      }
    }
  }

  lemma ChildBeside(t0: Tables, t1: Tables, t2: Tables, free: set<nat>, sroot: nat, sp: Places, droot: nat, dp: Places,
                    s: nat, d: nat, n: nat, i: nat, c: nat, e: Pte)
    requires Pair(t0, free, sroot, sp, droot, dp) && Match(sp, s, dp, d, n) && 1 < n && i < ENTRIES
    requires IsTable(t0, d) && IsTable(t0, s) && s != d && s !in dp && d !in sp && e == t0[s][i]
    requires c in free && c != 0 && t1 == WithTable(t0, d, i, c, e.(frame := c))
    requires Match(sp, e.frame, dp[c := dp[d] + [i]], c, n - 1)
    requires Unmoved(t1, t2, sp, e.frame, dp[c := dp[d] + [i]], c, free - {c})
    requires s in t2 && d in t2 && t2[s] == t0[s] && t2[d] == t1[d]
    ensures Confined(t0, t2, sp, s, dp, d, n, i, free)
  {
    var dp1 := dp[c := dp[d] + [i]];
    assert Unmoved(t0, t2, sp, s, dp, d, free) by {
      forall f | f in t0 && f !in free
          && !(f in sp && sp[s] <= sp[f] && |sp[f]| == LEVELS - 1 && Low(sp[f]))
                && !(f in dp && dp[d] <= dp[f] && Low(dp[f]))
        ensures f in t2 && t2[f] == t0[f]
      {
        assert f in t1 && t1[f] == t0[f];
        assert f in sp && sp[e.frame] <= sp[f] ==> sp[s] <= sp[f];
        if f in dp { PrefixLonger(dp[d], i, dp[f]); }
      }
    }
    forall idx: seq<nat> | IsPath(idx, n) && idx[0] != i
      ensures Walk(t2, s, idx) == Walk(t0, s, idx) && Walk(t2, d, idx) == Walk(t0, d, idx)
    {
      forall f | f in sp && f != s && !(sp[s] + [i] <= sp[f]) && sp[s] <= sp[f]
        ensures f in t2 && t2[f] == t0[f]
      {
        assert f in t1 && t1[f] == t0[f];
      }
      WalkBeside(t0, t2, sroot, sp, s, i, idx);
      forall f | f in dp && f != d && !(dp[d] + [i] <= dp[f]) && dp[d] <= dp[f]
        ensures f in t2 && t2[f] == t0[f]
      {
        assert f in t1 && t1[f] == t0[f] && dp1[f] == dp[f];
      }
      WalkBeside(t0, t2, droot, dp, d, i, idx);
    }
  }

  lemma MatchIs(sp: Places, s: nat, dp: Places, d: nat, n: nat)
    requires Match(sp, s, dp, d, n)
    ensures 0 < n <= LEVELS && s in sp && d in dp && sp[s] == dp[d] && |sp[s]| + n == LEVELS
  {
  }

  lemma ConfinedSelf(tables: Tables, sp: Places, s: nat, dp: Places, d: nat, n: nat, i: nat, free: set<nat>)
    requires Match(sp, s, dp, d, n) && IsTable(tables, s) && IsTable(tables, d)
    ensures Confined(tables, tables, sp, s, dp, d, n, i, free)
  {
  }

  lemma UserNone(k: Image, tables: Tables, t: nat, n: nat, i: nat)
    requires n > 0 && IsShared(n, i)
    ensures UserVia(k, tables, t, n, i) == iset{}
  {
  }

  /** Entries below `i` are cloned, the others untouched. */
  ghost predicate LoopAt(k: Image, t0: Tables, now: Tables, sp: Places, s: nat, dp: Places, d: nat, dp': Places, n: nat,
                         i: nat, free: set<nat>)
    requires Match(sp, s, dp, d, n)
  {
    && NewFrom(sp, dp, dp', free) && Unmoved(t0, now, sp, s, dp, d, free)
    && IsTable(now, s) && IsTable(now, d) && IsTable(t0, s) && now[s] == t0[s]
    && (forall j | i <= j < ENTRIES :: now[d][j] == NO_ENTRY)
    && ClonedAll(k, t0, now, s, d, n, i) && WalksFrom(t0, now, s, n, i)
  }

  /** Pages from first index `i` on are found as they were. */
  ghost predicate WalksFrom(was: Tables, now: Tables, t: nat, n: nat, i: nat)
    requires n > 0
  {
    forall idx: seq<nat> {:trigger Walk(now, t, idx)} | IsPath(idx, n) && idx[0] >= i ::
      Walk(now, t, idx) == Walk(was, t, idx)
  }

  lemma LoopEnd(k: Image, t0: Tables, now: Tables, sp: Places, s: nat, dp: Places, d: nat, dp': Places, n: nat,
                free: set<nat>)
    requires Match(sp, s, dp, d, n) && LoopAt(k, t0, now, sp, s, dp, d, dp', n, ENTRIES, free)
    ensures NewFrom(sp, dp, dp', free) && Unmoved(t0, now, sp, s, dp, d, free)
    ensures ClonedAll(k, t0, now, s, d, n, ENTRIES)
  {
  }

  lemma LoopStart(k: Image, t0: Tables, refs: seq<nat>, sp: Places, s: nat, dp: Places, d: nat, n: nat, free: set<nat>)
    requires Match(sp, s, dp, d, n) && IsTable(t0, s) && d in t0 && t0[d] == Blank() && Bounded(refs)
    ensures LoopAt(k, t0, t0, sp, s, dp, d, dp, n, 0, free)
    ensures Bumped(k, refs, refs, WrittenUnder(k, t0, s, n, Limit(n, 0)))
  {
  }

  lemma LoopReady(k: Image, t0: Tables, now: Tables, sp: Places, s: nat, dp: Places, d: nat, dp': Places, n: nat,
                  i: nat, free: set<nat>)
    requires Match(sp, s, dp, d, n) && LoopAt(k, t0, now, sp, s, dp, d, dp', n, i, free) && i < ENTRIES
    requires OneWriter(k, t0, s, n, Limit(n, ENTRIES))
    ensures IsTable(now, s) && IsTable(now, d) && now[d][i] == NO_ENTRY && WalksFrom(t0, now, s, n, i)
    ensures OneWriter(k, now, s, n, Limit(n, ENTRIES))
  {
  }

  lemma LoopStep(k: Image, t0: Tables, was: Tables, now: Tables, sp: Places, s: nat, dp: Places, d: nat, dp1: Places,
                 dp2: Places, n: nat, i: nat, free0: set<nat>, free1: set<nat>, ok: bool)
    requires Match(sp, s, dp, d, n) && Match(sp, s, dp1, d, n) && LoopAt(k, t0, was, sp, s, dp, d, dp1, n, i, free0)
             && i < ENTRIES
    requires Confined(was, now, sp, s, dp1, d, n, i, free1) && NewFrom(sp, dp1, dp2, free1) && free1 <= free0
    requires ok ==> ClonedVia(k, was, now, s, d, n, i)
    ensures NewFrom(sp, dp, dp2, free0) && Unmoved(t0, now, sp, s, dp, d, free0) && Match(sp, s, dp2, d, n)
    ensures ok ==> LoopAt(k, t0, now, sp, s, dp, d, dp2, n, i + 1, free0)
  {
  }

  lemma LoopCounts(k: Image, t0: Tables, was: Tables, refs0: seq<nat>, refs1: seq<nat>, refs2: seq<nat>, s: nat, n: nat,
                   i: nat)
    requires n > 0 && OneWriter(k, t0, s, n, Limit(n, ENTRIES)) && i < ENTRIES && Bounded(refs0)
    requires WalksFrom(t0, was, s, n, i)
    requires Bumped(k, refs0, refs1, WrittenUnder(k, t0, s, n, Limit(n, i)))
             && Bumped(k, refs1, refs2, UserVia(k, was, s, n, i))
    ensures Bumped(k, refs0, refs2, WrittenUnder(k, t0, s, n, Limit(n, i + 1)))
  {
    if IsShared(n, i) {
      BumpedJoin(k, refs0, refs1, refs2, WrittenUnder(k, t0, s, n, USER_HALF), iset{});
      assert WrittenUnder(k, t0, s, n, USER_HALF) + iset{} == WrittenUnder(k, t0, s, n, USER_HALF);
    } else {
      assert OneWriter(k, t0, s, n, i + 1);
      UnderMore(k, t0, s, n, i);
      SameVia(k, t0, was, s, n, i);
      BumpedJoin(k, refs0, refs1, refs2, WrittenUnder(k, t0, s, n, i), WrittenVia(k, t0, s, n, i));
    }
  }

  /** The loop stops at entry `i`: the entries before it are cloned, that one is half done, the rest is untouched. */
  lemma LoopHalf(k: Image, t0: Tables, was: Tables, now: Tables, refs0: seq<nat>, refs1: seq<nat>, refs2: seq<nat>,
                 sp: Places, s: nat, dp: Places, d: nat, dp1: Places, n: nat, i: nat, free0: set<nat>, free1: set<nat>)
    requires Match(sp, s, dp, d, n) && Match(sp, s, dp1, d, n) && LoopAt(k, t0, was, sp, s, dp, d, dp1, n, i, free0)
             && i < ENTRIES
    requires Confined(was, now, sp, s, dp1, d, n, i, free1) && HalfVia(k, was, now, refs2, s, n, i)
    requires Bumped(k, refs0, refs1, WrittenUnder(k, t0, s, n, Limit(n, i))) && Grew(refs1, refs2) && Bounded(refs0)
    ensures HalfAll(k, t0, now, refs2, s, n) && Grew(refs0, refs2)
  {
    forall idx: seq<nat> | IsPath(idx, n)
      ensures HalfAt(k, t0, now, refs2, s, n, idx)
    {
      var x := Walk(t0, s, idx);
      if idx[0] < i {
        assert ClonedAt(k, t0, was, s, d, n, idx);
        if !IsShared(n, idx[0]) && x.Leaf? && Writable(k, x.e, x.e.frame) && x.e.frame < |refs0| {
          assert WritesVia(k, t0, s, n, idx[0], x.e.frame);
          assert refs1[x.e.frame] == Twice(refs0[x.e.frame]);
        }
      } else if idx[0] == i {
        assert HalfAt(k, was, now, refs2, s, n, idx);
      }
    }
  }

  lemma SameVia(k: Image, was: Tables, now: Tables, t: nat, n: nat, i: nat)
    requires n > 0 && WalksFrom(was, now, t, n, i)
    ensures WrittenVia(k, now, t, n, i) == WrittenVia(k, was, t, n, i)
  {
  }

  // ----- how many frames it takes -----

  /** Entry `e`, `n` levels from the pages, leads to a table that is cloned. */
  predicate Leads(e: Pte, n: nat, i: nat) { e.present && !Ends(e, n) && !IsShared(n, i) }

  /** How many tables hang, directly or not, below the first `i` entries of `t` and are not shared. */
  ghost function Hanging(tables: Tables, t: nat, n: nat, i: nat): nat
    decreases n, i
  {
    if n <= 1 || !IsTable(tables, t) || i == 0 || i > ENTRIES then 0
    else Hanging(tables, t, n, i - 1) + HangingAt(tables, t, n, i - 1)
  }

  /** The same for entry `i` alone. */
  ghost function HangingAt(tables: Tables, t: nat, n: nat, i: nat): nat
    requires n > 1 && IsTable(tables, t) && i < ENTRIES
    decreases n, i
  {
    if Leads(tables[t][i], n, i) then 1 + Hanging(tables, tables[t][i].frame, n - 1, ENTRIES) else 0
  }

  lemma HangingNone(tables: Tables, t: nat, n: nat)
    ensures Hanging(tables, t, n, 0) == 0 && (n <= 1 ==> Hanging(tables, t, n, ENTRIES) == 0)
  {
  }

  lemma {:induction false} HangingGrows(tables: Tables, t: nat, n: nat, i: nat, j: nat)
    requires i <= j <= ENTRIES
    ensures Hanging(tables, t, n, i) <= Hanging(tables, t, n, j)
  {
    if i < j {
      HangingGrows(tables, t, n, i, j - 1);
    }
  }

  /** Last-level tables do not matter. */
  lemma {:induction false} HangingKept(was: Tables, now: Tables, root: nat, path: Places, t: nat, n: nat, i: nat)
    requires Tree(was, root, path) && t in path && |path[t]| + n == LEVELS && i <= ENTRIES
    requires forall f | f in path && |path[f]| < LEVELS - 1 :: f in now && now[f] == was[f]
    ensures Hanging(now, t, n, i) == Hanging(was, t, n, i)
    ensures n > 1 && i < ENTRIES ==> IsTable(was, t) && IsTable(now, t)
    ensures n > 1 && i < ENTRIES ==> HangingAt(now, t, n, i) == HangingAt(was, t, n, i)
    decreases n, i
  {
    if n > 1 && i > 0 {
      HangingKept(was, now, root, path, t, n, i - 1);
    }
    if n > 1 && i < ENTRIES && Leads(was[t][i], n, i) {
      HangingKept(was, now, root, path, was[t][i].frame, n - 1, ENTRIES);
    }
  }

  /** What a clone leaves of the upper tables of the source. */
  lemma UpperKept(was: Tables, now: Tables, free: set<nat>, sroot: nat, sp: Places, droot: nat, dp: Places, s: nat,
                  d: nat)
    requires Pair(was, free, sroot, sp, droot, dp) && s in sp && d in dp
    requires Unmoved(was, now, sp, s, dp, d, free)
    ensures forall f | f in sp && |sp[f]| < LEVELS - 1 :: f in now && now[f] == was[f]
  {
    forall f | f in sp && |sp[f]| < LEVELS - 1
      ensures f in now && now[f] == was[f]
    {
      assert f in was && f !in free;
    }
  }

  /** The new table in the destination is none of the source's. */
  lemma ChildHangs(was: Tables, now: Tables, free: set<nat>, sroot: nat, sp: Places, droot: nat, dp: Places, s: nat,
                   d: nat, n: nat, i: nat, c: nat, e: Pte)
    requires Pair(was, free, sroot, sp, droot, dp) && Match(sp, s, dp, d, n) && 1 < n && i < ENTRIES && !IsShared(n, i)
    requires IsTable(was, d) && IsTable(was, s) && e == was[s][i] && e.present && !Ends(e, n)
    requires c in free && now == WithTable(was, d, i, c, e.(frame := c))
    ensures HangingAt(was, s, n, i) == 1 + Hanging(now, e.frame, n - 1, ENTRIES)
  {
    MatchFacts(was, free, sroot, sp, droot, dp, s, d, n);
    assert sp[e.frame] == sp[s] + [i];
    HangingKept(was, now, sroot, sp, e.frame, n - 1, ENTRIES);
  }

  lemma NothingHung(was: Tables, sp: Places, dp: Places, s: nat, n: nat, i: nat, free: set<nat>)
    requires 1 < n && i < ENTRIES && IsTable(was, s) && was[s][i].present && !Ends(was[s][i], n) && !IsShared(n, i)
    ensures NewFrom(sp, dp, dp, free) && HangingAt(was, s, n, i) > 0
  {
  }

  lemma NewChild(sp: Places, dp: Places, p: seq<nat>, dp': Places, c: nat, free: set<nat>)
    requires NewFrom(sp, dp[c := p], dp', free - {c}) && c in free && c !in dp
    ensures NewFrom(sp, dp, dp', free)
  {
  }

  lemma LoopHangs(k: Image, t0: Tables, now: Tables, free: set<nat>, sroot: nat, sp: Places, droot: nat, s: nat,
                  dp: Places, d: nat, dp1: Places, n: nat, i: nat)
    requires Pair(t0, free, sroot, sp, droot, dp) && Match(sp, s, dp, d, n) && 1 < n && i < ENTRIES
    requires LoopAt(k, t0, now, sp, s, dp, d, dp1, n, i, free)
    ensures IsTable(now, s) && IsTable(t0, s)
    ensures Hanging(t0, s, n, i + 1) == Hanging(t0, s, n, i) + HangingAt(now, s, n, i)
    ensures Hanging(t0, s, n, i + 1) <= Hanging(t0, s, n, ENTRIES)
  {
    hide ClonedAll, Walk;
    UpperKept(t0, now, free, sroot, sp, droot, dp, s, d);
    HangingKept(t0, now, sroot, sp, s, n, i);
    HangingGrows(t0, s, n, i + 1, ENTRIES);
  }

  /** The places below `p` whose next index is less than `i`. */
  ghost function PlacesBelow(path: Places, p: seq<nat>, i: nat): set<nat> {
    set f | f in path && |p| < |path[f]| && p <= path[f] && path[f][|p|] < i
  }

  /** Each of them has its own place. */
  lemma {:induction false} HangingBound(tables: Tables, root: nat, path: Places, t: nat, n: nat, i: nat)
    requires Tree(tables, root, path) && t in path && |path[t]| + n == LEVELS && i <= ENTRIES
    ensures Hanging(tables, t, n, i) <= |PlacesBelow(path, path[t], i)|
    decreases n, i
  {
    if n > 1 && i > 0 {
      HangingBound(tables, root, path, t, n, i - 1);
      var p, e := path[t], tables[t][i - 1];
      var less, all := PlacesBelow(path, p, i - 1), PlacesBelow(path, p, i);
      if Leads(e, n, i - 1) {
        var c := e.frame;
        assert path[c] == p + [i - 1];
        HangingBound(tables, root, path, c, n - 1, ENTRIES);
        var under := PlacesBelow(path, path[c], ENTRIES);
        assert less !! under && c !in less && c !in under by {
          assert forall f | f in under :: path[f][|p|] == i - 1;
        }
        assert forall f | f in under :: f in all by {
          forall f | f in under ensures f in all { PrefixLonger(p, i - 1, path[f]); }
        }
        Fits(less + under + {c}, all);
      } else {
        Fits(less, all);
      }
    }
  }

  lemma {:induction false} Fits(s: set<nat>, t: set<nat>)
    requires s <= t
    ensures |s| <= |t|
  {
    if s != {} {
      var x :| x in s;
      Fits(s - {x}, t - {x});
    }
  }

  /** A pair of last-level tables. */
  lemma LastTables(k: Image, was: Tables, now: Tables, free: set<nat>, sroot: nat, sp: Places, droot: nat, dp: Places,
                   s: nat, d: nat)
    requires Pair(was, free, sroot, sp, droot, dp) && Match(sp, s, dp, d, 1) && IsTable(was, s) && IsTable(was, d)
             && s != d
    requires now == was[s := ProtectedAll(k, was[s])][d := CopiedAll(k, was[s])]
    ensures Pair(now, free, sroot, sp, droot, dp) && NewFrom(sp, dp, dp, free) && Unmoved(was, now, sp, s, dp, d, free)
    ensures ClonedAll(k, was, now, s, d, 1, ENTRIES)
  {
  }

  predicate FoundPresent(x: Found) { x.Leaf? && x.e.present }

  /** Nothing differs but the entry of one page. */
  ghost predicate OnlyEntry(was: Tables, now: Tables, root: nat, path: Places, idx: seq<nat>)
    requires IsPath(idx, LEVELS)
  {
    && SameBut(was, now, root, iset{idx})
    && forall f | f in was && !(f in path && path[f] == idx[..LEVELS - 1]) :: f in now && now[f] == was[f]
  }

  lemma PutEntry(tables: Tables, root: nat, path: Places, t: nat, e: Pte, idx: seq<nat>)
    requires Tree(tables, root, path) && t in path && IsPath(idx, LEVELS)
    requires path[t] == idx[..LEVELS - 1] && Reaches(tables, root, idx, t)
    ensures var now := tables[t := tables[t][idx[LEVELS - 1] := e]];
            Tree(now, root, path) && OnlyEntry(tables, now, root, path, idx) && Walk(now, root, idx) == Leaf(e)
  {
    LeafForAll(tables, root, path, t, e, idx);
  }

  class CowMap {
    const mmu: PageMap
    const image: Image
    var refs: seq<nat>
    /** The bytes of the frames. */
    var frames: map<nat, seq<byte>>

    constructor (mmu: PageMap, image: Image, refs: seq<nat>, frames: map<nat, seq<byte>>)
      ensures this.mmu == mmu && this.image == image && this.refs == refs && this.frames == frames
    {
      this.mmu, this.image, this.refs, this.frames := mmu, image, refs, frames;
    }

    /** The innermost loop: one last-level table. */
    method ClonePt(s: nat, d: nat)
      requires IsTable(mmu.tables, s) && s != d && d in mmu.tables && mmu.tables[d] == Blank()
      requires OneWriterIn(image, mmu.tables[s]) && Bounded(refs)
      modifies this`refs, mmu`tables
      ensures mmu.tables == old(mmu.tables)[s := ProtectedAll(image, old(mmu.tables)[s])][d :=
              CopiedAll(image, old(mmu.tables)[s])]
      ensures Bumped(image, old(refs), refs, WrittenIn(image, old(mmu.tables)[s], ENTRIES)) && Bounded(refs)
    {
      ghost var es := mmu.tables[s];
      var src, dst := mmu.tables[s], mmu.tables[d];
      BumpedNone(image, refs);
      assert WrittenIn(image, es, 0) == iset{};
      for i := 0 to ENTRIES
        invariant |src| == |dst| == ENTRIES && mmu.tables == old(mmu.tables)
        invariant forall j | 0 <= j < i :: src[j] == Protected(image, es[j]) && dst[j] == Copied(image, es[j])
        invariant forall j | i <= j < ENTRIES :: src[j] == es[j] && dst[j] == NO_ENTRY
        invariant Bumped(image, old(refs), refs, WrittenIn(image, es, i)) && Bounded(refs)
      {
        var e := src[i];
        ghost var was := refs;
        WrittenMore(image, es, i);
        if !e.present {
          assert WrittenIn(image, es, i + 1) == WrittenIn(image, es, i);
          continue;
        }
        dst := dst[i := e];
        if e.rw && !image.Has(e.frame) {
          src := src[i := e.(rw := false, cow := true)];
          dst := dst[i := e.(rw := false, cow := true)];
          IncTwice(image, refs, e.frame);
          refs := R.Inc(refs, e.frame);
          refs := R.Inc(refs, e.frame);
          BumpedJoin(image, old(refs), was, refs, WrittenIn(image, es, i), iset{e.frame});
        } else if image.Has(e.frame) {
          IncKernel(image, refs, e.frame);
          refs := R.Inc(refs, e.frame);
          BumpedJoin(image, old(refs), was, refs, WrittenIn(image, es, i), iset{});
        }
        assert src[i] == Protected(image, es[i]) && dst[i] == Copied(image, es[i]);
      }
      assert src == ProtectedAll(image, es) && dst == CopiedAll(image, es);
      mmu.tables := mmu.tables[s := src][d := dst];
    }

    /** Both trees are sound and share only the kernel's half. */
    ghost predicate Both(sroot: nat, sp: Places, droot: nat, dp: Places)
      reads this, mmu, mmu.pfa
    {
      mmu.Ok(sroot, sp) && mmu.Ok(droot, dp) && Apart(sp, dp) && Bounded(refs)
    }

    /** One entry of an upper table: shared, copied as a large page, or cloned with everything below it. */
    method CloneEntry(s: nat, d: nat, i: nat, n: nat, ghost sroot: nat, ghost sp: Places, ghost droot: nat,
                      ghost dp: Places)
      returns (ok: bool, ghost dp': Places)
      requires Both(sroot, sp, droot, dp) && Match(sp, s, dp, d, n) && 1 < n && i < ENTRIES
      requires mmu.tables[d][i] == NO_ENTRY && OneWriter(image, mmu.tables, s, n, Limit(n, ENTRIES))
      modifies this`refs, mmu, mmu.pfa
      ensures Both(sroot, sp, droot, dp') && NewFrom(sp, dp, dp', old(mmu.pfa.Free()))
              && mmu.pfa.Free() <= old(mmu.pfa.Free())
      ensures Confined(old(mmu.tables), mmu.tables, sp, s, dp, d, n, i, old(mmu.pfa.Free()))
      ensures !ok ==> mmu.pfa.Free() == {} && Grew(old(refs), refs)
      ensures !ok ==> HalfVia(image, old(mmu.tables), mmu.tables, refs, s, n, i)
      ensures ok ==> ClonedVia(image, old(mmu.tables), mmu.tables, s, d, n, i)
      ensures ok ==> Bumped(image, old(refs), refs, UserVia(image, old(mmu.tables), s, n, i))
      ensures IsTable(old(mmu.tables), s) && (ok <==> HangingAt(old(mmu.tables), s, n, i) <= |old(mmu.pfa.Free())|)
      ensures ok ==> |mmu.pfa.Free()| == |old(mmu.pfa.Free())| - HangingAt(old(mmu.tables), s, n, i)
      decreases n, 1
    {
      hide Tree, Walk, Apart, Unmoved, OneWriter, ClonedVia, BesideVia, UserVia, Confined, Bumped, Match, HalfVia,
           HalfAll, Grew, Hanging;
      dp' := dp;
      ghost var was, free := mmu.tables, mmu.pfa.Free();
      MatchIs(sp, s, dp, d, n);
      MatchFacts(was, free, sroot, sp, droot, dp, s, d, n);
      var e := mmu.tables[s][i];
      ok := true;
      BumpedNone(image, refs);
      if !e.present {
        NothingThere(image, was, s, d, n, i);
        ConfinedSelf(was, sp, s, dp, d, n, i, free);
        return;
      }
      if IsShared(n, i) {
        mmu.tables := mmu.tables[d := mmu.tables[d][i := e]];
        OneEntry(was, mmu.tables, free, sroot, sp, droot, dp, s, d, n, i, e);
        SharedThere(image, was, mmu.tables, free, sroot, sp, droot, dp, s, d, i, e);
        UserNone(image, was, s, n, i);
        dp' := dp + Shares(sp, i);
        return;
      }
      if n < LEVELS && e.ps {
        mmu.tables := mmu.tables[d := mmu.tables[d][i := e]];
        OneEntry(was, mmu.tables, free, sroot, sp, droot, dp, s, d, n, i, e);
        LargeTree(was, mmu.tables, droot, dp, d, i, e);
        LargeThere(image, was, mmu.tables, s, d, n, i, e);
        return;
      }
      ok, dp' := CloneChild(s, d, i, n, sroot, sp, droot, dp);
    }

    /** An entry that leads to a table: a new table in the destination, and everything below. */
    method CloneChild(s: nat, d: nat, i: nat, n: nat, ghost sroot: nat, ghost sp: Places, ghost droot: nat,
                      ghost dp: Places)
      returns (ok: bool, ghost dp': Places)
      requires Both(sroot, sp, droot, dp) && Match(sp, s, dp, d, n) && 1 < n && i < ENTRIES && !IsShared(n, i)
      requires IsTable(mmu.tables, s) && IsTable(mmu.tables, d) && mmu.tables[s][i].present
               && !Ends(mmu.tables[s][i], n)
      requires mmu.tables[d][i] == NO_ENTRY && OneWriter(image, mmu.tables, s, n, Limit(n, ENTRIES))
      modifies this`refs, mmu, mmu.pfa
      ensures Both(sroot, sp, droot, dp') && NewFrom(sp, dp, dp', old(mmu.pfa.Free()))
              && mmu.pfa.Free() <= old(mmu.pfa.Free())
      ensures Confined(old(mmu.tables), mmu.tables, sp, s, dp, d, n, i, old(mmu.pfa.Free()))
      ensures !ok ==> mmu.pfa.Free() == {} && Grew(old(refs), refs)
      ensures !ok ==> HalfVia(image, old(mmu.tables), mmu.tables, refs, s, n, i)
      ensures ok ==> ClonedVia(image, old(mmu.tables), mmu.tables, s, d, n, i)
      ensures ok ==> Bumped(image, old(refs), refs, UserVia(image, old(mmu.tables), s, n, i))
      ensures ok <==> HangingAt(old(mmu.tables), s, n, i) <= |old(mmu.pfa.Free())|
      ensures ok ==> |mmu.pfa.Free()| == |old(mmu.pfa.Free())| - HangingAt(old(mmu.tables), s, n, i)
      decreases n, 0
    {
      hide Tree, Walk, Apart, Unmoved, OneWriter, ClonedVia, BesideVia, UserVia, Confined, Bumped, Match, HalfVia,
           HalfAll, Grew, Hanging, HangingAt, NewFrom;
      dp' := dp;
      ghost var was, free := mmu.tables, mmu.pfa.Free();
      MatchIs(sp, s, dp, d, n);
      var e := mmu.tables[s][i];
      var c := mmu.AllocZeroed();
      if c == 0 {
        ConfinedSelf(was, sp, s, dp, d, n, i, free);
        HalfSelf(image, was, refs, s, n, i);
        NothingHung(was, sp, dp, s, n, i, free);
        return false, dp;
      }
      mmu.tables := mmu.tables[d := mmu.tables[d][i := e.(frame := c)]];
      ghost var mid := mmu.tables;
      dp' := dp[c := dp[d] + [i]];
      ChildBefore(image, was, mid, free, sroot, sp, droot, dp, s, d, n, i, c, e);
      ChildHangs(was, mid, free, sroot, sp, droot, dp, s, d, n, i, c, e);
      MatchIs(sp, e.frame, dp', c, n - 1);
      ok, dp' := CloneLevel(e.frame, c, n - 1, sroot, sp, droot, dp');
      NewChild(sp, dp, dp[d] + [i], dp', c, free);
      ChildAfter(image, was, mid, mmu.tables, free, sroot, sp, droot, dp, s, d, n, i, c, e, refs, ok);
    }

    /** A last-level table takes no frames. */
    method CloneLast(s: nat, d: nat, ghost sroot: nat, ghost sp: Places, ghost droot: nat, ghost dp: Places)
      requires Both(sroot, sp, droot, dp) && Match(sp, s, dp, d, 1)
      requires mmu.tables[d] == Blank() && OneWriter(image, mmu.tables, s, 1, ENTRIES)
      modifies this`refs, mmu`tables
      ensures Both(sroot, sp, droot, dp) && NewFrom(sp, dp, dp, mmu.pfa.Free())
      ensures Unmoved(old(mmu.tables), mmu.tables, sp, s, dp, d, mmu.pfa.Free())
      ensures ClonedAll(image, old(mmu.tables), mmu.tables, s, d, 1, ENTRIES)
      ensures Bumped(image, old(refs), refs, WrittenUnder(image, old(mmu.tables), s, 1, ENTRIES))
    {
      hide Tree, Walk, Apart, Unmoved, OneWriter, ClonedAll, WrittenUnder, Bumped, Match, NewFrom;
      ghost var t0, free := mmu.tables, mmu.pfa.Free();
      MatchFacts(t0, free, sroot, sp, droot, dp, s, d, 1);
      LastUnder(image, t0, s);
      ClonePt(s, d);
      LastTables(image, t0, mmu.tables, free, sroot, sp, droot, dp, s, d);
    }

    /** All entries of a table. */
    method CloneLevel(s: nat, d: nat, n: nat, ghost sroot: nat, ghost sp: Places, ghost droot: nat, ghost dp: Places)
      returns (ok: bool, ghost dp': Places)
      requires Both(sroot, sp, droot, dp) && Match(sp, s, dp, d, n)
      requires mmu.tables[d] == Blank() && OneWriter(image, mmu.tables, s, n, Limit(n, ENTRIES))
      modifies this`refs, mmu, mmu.pfa
      ensures Both(sroot, sp, droot, dp') && NewFrom(sp, dp, dp', old(mmu.pfa.Free()))
              && mmu.pfa.Free() <= old(mmu.pfa.Free())
      ensures Unmoved(old(mmu.tables), mmu.tables, sp, s, dp, d, old(mmu.pfa.Free()))
      ensures !ok ==> mmu.pfa.Free() == {} && Grew(old(refs), refs)
      ensures !ok ==> HalfAll(image, old(mmu.tables), mmu.tables, refs, s, n)
      ensures ok ==> ClonedAll(image, old(mmu.tables), mmu.tables, s, d, n, ENTRIES)
      ensures ok ==> Bumped(image, old(refs), refs, WrittenUnder(image, old(mmu.tables), s, n, Limit(n, ENTRIES)))
      ensures ok <==> Hanging(old(mmu.tables), s, n, ENTRIES) <= |old(mmu.pfa.Free())|
      ensures ok ==> |mmu.pfa.Free()| == |old(mmu.pfa.Free())| - Hanging(old(mmu.tables), s, n, ENTRIES)
      decreases n
    {
      hide Tree, Walk, Apart, Unmoved, OneWriter, ClonedVia, ClonedAll, BesideVia, UserVia, WrittenUnder, Confined,
           Bumped, Match, NewFrom, HalfVia, HalfAll, Grew, HangingAt, Hanging,
           LoopAt, WalksFrom, IsTable;
      dp' := dp;
      ok := true;
      ghost var t0, free0, refs0 := mmu.tables, mmu.pfa.Free(), refs;
      HangingNone(t0, s, n);
      MatchIs(sp, s, dp, d, n);
      MatchFacts(t0, free0, sroot, sp, droot, dp, s, d, n);
      if n == 1 {
        CloneLast(s, d, sroot, sp, droot, dp);
        return;
      }
      LoopStart(image, t0, refs, sp, s, dp, d, n, free0);
      for i := 0 to ENTRIES
        invariant ok && Both(sroot, sp, droot, dp') && mmu.pfa.Free() <= free0
        invariant Match(sp, s, dp', d, n) && LoopAt(image, t0, mmu.tables, sp, s, dp, d, dp', n, i, free0)
        invariant Bumped(image, refs0, refs, WrittenUnder(image, t0, s, n, Limit(n, i)))
        invariant |mmu.pfa.Free()| + Hanging(t0, s, n, i) == |free0|
      {
        ghost var was, dp1, free1, refs1 := mmu.tables, dp', mmu.pfa.Free(), refs;
        LoopReady(image, t0, was, sp, s, dp, d, dp1, n, i, free0);
        LoopHangs(image, t0, was, free0, sroot, sp, droot, s, dp, d, dp1, n, i);
        ok, dp' := CloneEntry(s, d, i, n, sroot, sp, droot, dp1);
        LoopStep(image, t0, was, mmu.tables, sp, s, dp, d, dp1, dp', n, i, free0, free1, ok);
        if !ok {
          LoopHalf(image, t0, was, mmu.tables, refs0, refs1, refs, sp, s, dp, d, dp1, n, i, free0, free1);
          return;
        }
        LoopCounts(image, t0, was, refs0, refs1, refs, s, n, i);
      }
      LoopEnd(image, t0, mmu.tables, sp, s, dp, d, dp', n, free0);
    }

    /** The whole clone. Another address space that shares only the kernel's half sees nothing of it. */
    method Clone(src: nat, ghost sp: Places) returns (dst: nat, ghost dp: Places)
      requires src != 0 ==> mmu.Ok(src, sp) && Bounded(refs) && OneWriter(image, mmu.tables, src, LEVELS, USER_HALF)
      modifies this`refs, mmu, mmu.pfa
      ensures src == 0 ==> dst == 0 && unchanged(this) && unchanged(mmu) && unchanged(mmu.pfa)
      ensures src != 0 ==> mmu.Ok(src, sp) && Bounded(refs) && mmu.pfa.Free() <= old(mmu.pfa.Free())
      ensures src != 0 ==> OnlyPages(old(mmu.tables), mmu.tables, sp, old(mmu.pfa.Free()))
      ensures dst == 0 ==> src == 0 || mmu.pfa.Free() == {}
      ensures src != 0 && dst == 0 ==> && Grew(old(refs), refs)
                                       && HalfAll(image, old(mmu.tables), mmu.tables, refs, src, LEVELS)
      ensures dst != 0 ==> dst in old(mmu.pfa.Free()) && mmu.Ok(dst, dp) && Apart(sp, dp)
      ensures dst != 0 ==> NewFrom(sp, map[], dp, old(mmu.pfa.Free()))
      ensures dst != 0 ==> ClonedAll(image, old(mmu.tables), mmu.tables, src, dst, LEVELS, ENTRIES)
      ensures dst != 0 ==> Bumped(image, old(refs), refs, WrittenUnder(image, old(mmu.tables), src, LEVELS, USER_HALF))
      ensures dst != 0 <==>
              src != 0 && 1 + Hanging(old(mmu.tables), src, LEVELS, ENTRIES) <= |old(mmu.pfa.Free())|
    {
      hide Walk, OneWriter, ClonedAll, WrittenUnder, Bumped, HalfAll, HalfVia, Grew, Hanging;
      dp := map[];
      if src == 0 { return 0, dp; }
      ghost var t0, free0 := mmu.tables, mmu.pfa.Free();
      dst := mmu.AllocZeroed();
      HalfSelf(image, t0, refs, src, LEVELS, 0);
      if dst == 0 { return 0, dp; }
      dp := map[dst := []];
      ghost var t1 := mmu.tables;
      NewRoot(image, t0, t1, sp, src, dst);
      HangingKept(t0, t1, src, sp, src, LEVELS, ENTRIES);
      var ok;
      ok, dp := CloneLevel(src, dst, LEVELS, src, sp, dst, map[dst := []]);
      OnlyPagesOf(t0, t1, mmu.tables, sp, src, dst, free0);
      ClonedFrom(image, t0, t1, mmu.tables, refs, src, dst);
      if !ok { return 0, dp; }
    }

    /** The last-level entry for `va`: table and index; table 0 if there is none. */
    method GetPte(root: nat, va: nat, ghost path: Places) returns (t: nat, i: nat)
      requires root != 0 ==> mmu.Ok(root, path)
      ensures root == 0 ==> t == 0
      ensures root != 0 ==> (t == 0 <==> !Walk(mmu.tables, root, Indices(va)).Leaf?)
      ensures t != 0 ==> && t in path && i == Indices(va)[LEVELS - 1] && path[t] == Indices(va)[..LEVELS - 1]
                         && IsTable(mmu.tables, t) && Walk(mmu.tables, root, Indices(va)) == Leaf(mmu.tables[t][i])
                         && Reaches(mmu.tables, root, Indices(va), t)
    {
      hide Walk, Tree, Lacking, Reaches, UserPath;
      i := 0;
      if root == 0 { return 0, 0; }
      var idx := Indices(va);
      Rooted(mmu.tables, root, path);
      NotZero(mmu.tables, root, path);
      StepDown(mmu.tables, root, path, root, idx);
      if !mmu.tables[root][idx[0]].present { return 0, 0; }
      var pdpt := mmu.tables[root][idx[0]].frame;
      StepDown(mmu.tables, root, path, pdpt, idx[1..]);
      var ent3 := mmu.tables[pdpt][idx[1]];
      if !ent3.present || ent3.ps { return 0, 0; }
      var pd := ent3.frame;
      StepDown(mmu.tables, root, path, pd, idx[1..][1..]);
      var ent2 := mmu.tables[pd][idx[2]];
      if !ent2.present || ent2.ps { return 0, 0; }
      t := ent2.frame;
      i := idx[3];
      LinkedWalk(mmu.tables, root, pdpt, pd, t, idx, false);
    }

    /** Copies a frame byte by byte. */
    method CopyFrame(from: nat, to: nat)
      requires from in frames && to in frames && |frames[from]| == |frames[to]| == PAGE_SIZE && from != to
      modifies this`frames
      ensures frames == old(frames)[to := old(frames)[from]]
    {
      ghost var src := frames[from];
      for i := 0 to PAGE_SIZE
        invariant frames.Keys == old(frames).Keys && |frames[to]| == PAGE_SIZE && frames[from] == src
        invariant forall f | f in frames && f != to :: frames[f] == old(frames)[f]
        invariant forall j | 0 <= j < i :: frames[to][j] == src[j]
      {
        frames := frames[to := frames[to][i := frames[from][i]]];
      }
      assert frames[to] == src;
    }

    /** A private copy of shared frame `f`, counted once; 0 if no frame is left. */
    method TakeCopy(f: nat) returns (pick: nat)
      requires mmu.pfa.Valid() && 8 * |mmu.pfa.bitmap| <= FRAMES && f in frames && f !in mmu.pfa.Free()
      requires forall g | g in frames :: |frames[g]| == PAGE_SIZE
      requires forall g | g in mmu.pfa.Free() :: g in frames
      modifies this`refs, this`frames, mmu.pfa
      ensures mmu.pfa.Valid() && |mmu.pfa.bitmap| == old(|mmu.pfa.bitmap|)
      ensures (pick == 0 <==> old(mmu.pfa.Free()) == {}) && pick < FRAMES
      ensures pick == 0 ==> refs == old(refs) && frames == old(frames) && mmu.pfa.Free() == old(mmu.pfa.Free())
      ensures pick != 0 ==> && pick in old(mmu.pfa.Free()) && mmu.pfa.Free() == old(mmu.pfa.Free()) - {pick}
                            && frames == old(frames)[pick := old(frames)[f]]
                            && refs == R.Set(R.Dec(old(refs), f), pick, 1) && Recounted(old(refs), refs, f, pick)
    {
      var paddr := mmu.pfa.Alloc();
      pick := paddr / PAGE_SIZE;
      if paddr == 0 { return; }
      CopyFrame(f, pick);
      // the count was at least two, so the old frame stays in use
      refs := R.Dec(refs, f);
      refs := R.Set(refs, pick, 1);
    }

    /** The write fault: a shared frame is copied, one that is not is made writable in place. */
    method Fault(root: nat, va: nat, ghost path: Places) returns (rc: int, pick: nat)
      requires root != 0 ==> mmu.Ok(root, path)
      requires forall f | f in frames :: |frames[f]| == PAGE_SIZE
      requires forall f | f in mmu.pfa.Free() :: f in frames
      requires root != 0 && FoundPresent(Walk(mmu.tables, root, Indices(va))) ==>
                 var e := Walk(mmu.tables, root, Indices(va)).e;
                 e.cow ==> e.frame in frames && e.frame !in mmu.pfa.Free()
      modifies this`refs, this`frames, mmu`tables, mmu.pfa
      ensures root != 0 ==> mmu.Ok(root, path)
      ensures rc == -1 <==> root == 0 || !FoundPresent(old(Walk(mmu.tables, root, Indices(va))))
      ensures rc == -2 <==>
              && root != 0 && FoundPresent(old(Walk(mmu.tables, root, Indices(va))))
              && !old(Walk(mmu.tables, root, Indices(va))).e.cow
      ensures rc == 0 || rc == -1 || rc == -2 || (rc == -3 && mmu.pfa.Free() == {})
      ensures rc == -3 ==> pick == 0 && R.IsShared(old(refs), old(Walk(mmu.tables, root, Indices(va))).e.frame)
      ensures rc != 0 ==>
                && refs == old(refs) && frames == old(frames) && mmu.tables == old(mmu.tables)
                && mmu.pfa.Free() == old(mmu.pfa.Free())
      ensures rc == 0 ==>
                && root != 0 && FoundPresent(old(Walk(mmu.tables, root, Indices(va))))
                && OnlyEntry(old(mmu.tables), mmu.tables, root, path, Indices(va))
                && var e := old(Walk(mmu.tables, root, Indices(va))).e;
                   && e.cow
                   && if R.IsShared(old(refs), e.frame)
                      then && pick in old(mmu.pfa.Free()) && mmu.pfa.Free() == old(mmu.pfa.Free()) - {pick}
                           && Walk(mmu.tables, root, Indices(va)) == Leaf(e.(frame := pick, rw := true, cow := false))
                           && e.frame in old(frames) && frames == old(frames)[pick := old(frames)[e.frame]]
                           && refs == R.Set(R.Dec(old(refs), e.frame), pick, 1)
                           && Recounted(old(refs), refs, e.frame, pick)
                      else && Walk(mmu.tables, root, Indices(va)) == Leaf(e.(rw := true, cow := false))
                           && frames == old(frames) && refs == old(refs) && mmu.pfa.Free() == old(mmu.pfa.Free())
    {
      hide Walk, Tree, Reaches, UserPath, SameBut, Indices, OnlyEntry, R.Set, R.Dec, R.IsShared, Recounted;
      pick := 0;
      var t, i := GetPte(root, va, path);
      if t == 0 || !mmu.tables[t][i].present { return -1, 0; }
      var e := mmu.tables[t][i];
      if !e.cow { return -2, 0; }
      ghost var idx := Indices(va);
      if R.IsShared(refs, e.frame) {
        pick := TakeCopy(e.frame);
        if pick == 0 { return -3, 0; }
        assert pick % FRAMES == pick;
        e := e.(frame := pick % FRAMES);
      }
      e := e.(rw := true, cow := false);
      PutEntry(mmu.tables, root, path, t, e, idx);
      mmu.tables := mmu.tables[t := mmu.tables[t][i := e]];
      return 0, pick;
    }
  }

  /** Among the tables in use, only the source's last-level user tables changed. */
  ghost predicate OnlyPages(was: Tables, now: Tables, sp: Places, free: set<nat>) {
    forall f {:trigger f in was} | f in was && f !in free && !(f in sp && |sp[f]| == LEVELS - 1 && Low(sp[f])) ::
      f in now && now[f] == was[f]
  }

  lemma OnlyPagesOf(t0: Tables, t1: Tables, t2: Tables, sp: Places, src: nat, dst: nat, free: set<nat>)
    requires t1 == t0[dst := Blank()] && dst in free && src in sp && sp[src] == []
    requires Unmoved(t1, t2, sp, src, map[dst := []], dst, free - {dst})
    ensures OnlyPages(t0, t2, sp, free)
  {
    forall f | f in t0 && f !in free && !(f in sp && |sp[f]| == LEVELS - 1 && Low(sp[f]))
      ensures f in t2 && t2[f] == t0[f]
    {
      assert f in t1;
    }
  }

  lemma NewRoot(k: Image, t0: Tables, t1: Tables, sp: Places, src: nat, dst: nat)
    requires Tree(t0, src, sp) && dst !in sp && dst != 0 && t1 == t0[dst := Blank()]
    ensures Tree(t1, src, sp) && Tree(t1, dst, map[dst := []]) && Apart(sp, map[dst := []])
    ensures Match(sp, src, map[dst := []], dst, LEVELS)
    ensures forall idx: seq<nat> | IsPath(idx, LEVELS) :: Walk(t1, src, idx) == Walk(t0, src, idx)
    ensures OneWriter(k, t0, src, LEVELS, USER_HALF) ==> OneWriter(k, t1, src, LEVELS, USER_HALF)
    ensures WrittenUnder(k, t1, src, LEVELS, USER_HALF) == WrittenUnder(k, t0, src, LEVELS, USER_HALF)
  {
    TreeKept(t0, t1, src, sp);
    forall idx: seq<nat> | IsPath(idx, LEVELS)
      ensures Walk(t1, src, idx) == Walk(t0, src, idx)
    {
      WalkKept(t0, t1, src, sp, src, idx);
    }
    forall i: nat
      ensures WrittenVia(k, t1, src, LEVELS, i) == WrittenVia(k, t0, src, LEVELS, i)
    {
      SameVia(k, t0, t1, src, LEVELS, i);
    }
    assert forall f: nat, i: nat :: WritesVia(k, t1, src, LEVELS, i, f) <==> f in WrittenVia(k, t1, src, LEVELS, i);
    assert forall f: nat, i: nat :: WritesVia(k, t0, src, LEVELS, i, f) <==> f in WrittenVia(k, t0, src, LEVELS, i);
    assert forall f: nat :: WritesUnder(k, t1, src, LEVELS, USER_HALF, f) <==>
           WritesUnder(k, t0, src, LEVELS, USER_HALF, f);
  }

  lemma ClonedFrom(k: Image, t0: Tables, t1: Tables, t2: Tables, refs: seq<nat>, src: nat, dst: nat)
    requires forall idx: seq<nat> | IsPath(idx, LEVELS) :: Walk(t1, src, idx) == Walk(t0, src, idx)
    ensures HalfAll(k, t1, t2, refs, src, LEVELS) ==> HalfAll(k, t0, t2, refs, src, LEVELS)
    ensures ClonedAll(k, t1, t2, src, dst, LEVELS, ENTRIES) ==> ClonedAll(k, t0, t2, src, dst, LEVELS, ENTRIES)
  {
  }

  /** Among the tables in use, only the source's own changed. */
  ghost predicate OnlyLow(was: Tables, now: Tables, sp: Places, free: set<nat>) {
    forall f {:trigger f in was} | f in was && f !in free && !(f in sp && Low(sp[f])) :: f in now && now[f] == was[f]
  }

  lemma PagesAreLow(was: Tables, now: Tables, sp: Places, free: set<nat>)
    requires OnlyPages(was, now, sp, free)
    ensures OnlyLow(was, now, sp, free)
  {
  }

  /** Tables on the way to a user page are the space's own. */
  lemma BesideIsLow(was: Tables, now: Tables, sp: Places, free: set<nat>, idx: seq<nat>)
    requires Beside(was, now, sp, free, idx) && IsPath(idx, LEVELS) && idx[0] < USER_HALF
    ensures OnlyLow(was, now, sp, free)
  {
  }

  /** Another space that shares only the kernel's half keeps its tree and every translation. */
  lemma OthersKeep(was: Tables, now: Tables, sp: Places, free: set<nat>, root: nat, rp: Places)
    requires OnlyLow(was, now, sp, free) && Tree(was, root, rp) && Apart(sp, rp) && forall f | f in rp :: f !in free
    ensures Tree(now, root, rp)
    ensures forall idx: seq<nat> | IsPath(idx, LEVELS) :: Walk(now, root, idx) == Walk(was, root, idx)
  {
    TreeKept(was, now, root, rp);
    forall idx: seq<nat> | IsPath(idx, LEVELS)
      ensures Walk(now, root, idx) == Walk(was, root, idx)
    {
      WalkKept(was, now, root, rp, root, idx);
    }
  }
}
