/** Four-level page tables as a tree of frames, and why they behave like a map from pages to entries. */
module PageTables {
  import opened Paging

  const ENTRIES: nat := 512
  const LEVELS: nat := 4

  type Tables = map<nat, seq<Pte>>

  predicate IsTable(tables: Tables, f: nat) { f in tables && |tables[f]| == ENTRIES }

  /** The indices of a virtual address, top level first, and its page number within 48 bits. */
  function Indices(va: nat): (idx: seq<nat>)
    ensures |idx| == LEVELS && InBounds(idx)
  {
    [va / 0x80_0000_0000 % ENTRIES, va / 0x4000_0000 % ENTRIES, va / 0x20_0000 % ENTRIES, va / 0x1000 % ENTRIES]
  }

  predicate InBounds(idx: seq<nat>) { forall i | 0 <= i < |idx| :: idx[i] < ENTRIES }

  function PageNumber(va: nat): nat { va / 0x1000 % 0x10_0000_0000 }

  /** Two addresses use the same entry exactly when they lie on the same page. */
  lemma IndicesIff(va: nat, wa: nat)
    ensures Indices(va) == Indices(wa) <==> PageNumber(va) == PageNumber(wa)
  {
    hide Indices, PageNumber;
    PageFromIndices(va);
    PageFromIndices(wa);
    var i, j := Indices(va), Indices(wa);
    SameDigits(i[0], i[1], i[2], i[3], j[0], j[1], j[2], j[3]);
    assert i == j <==> i[0] == j[0] && i[1] == j[1] && i[2] == j[2] && i[3] == j[3];
  }

  lemma SameDigits(a: nat, b: nat, c: nat, d: nat, a': nat, b': nat, c': nat, d': nat)
    requires b < ENTRIES && c < ENTRIES && d < ENTRIES && b' < ENTRIES && c' < ENTRIES && d' < ENTRIES
    ensures ((a * ENTRIES + b) * ENTRIES + c) * ENTRIES + d == ((a' * ENTRIES + b') * ENTRIES + c') * ENTRIES + d'
            <==> a == a' && b == b' && c == c' && d == d'
  {
  }

  lemma PageFromIndices(va: nat)
    ensures var i := Indices(va);
            PageNumber(va) == ((i[0] * ENTRIES + i[1]) * ENTRIES + i[2]) * ENTRIES + i[3]
  {
    var n := va / 0x1000;
    Nested(va);
    Digits(n, n / 512, n / 512 / 512, n / 512 / 512 / 512);
  }

  lemma Nested(va: nat)
    ensures va / 0x20_0000 == va / 0x1000 / 512
    ensures va / 0x4000_0000 == va / 0x1000 / 512 / 512
    ensures va / 0x80_0000_0000 == va / 0x1000 / 512 / 512 / 512
  {
  }

  lemma Digits(n: nat, n1: nat, n2: nat, n3: nat)
    requires n1 == n / 512 && n2 == n1 / 512 && n3 == n2 / 512
    ensures n % 0x10_0000_0000 == ((n3 % 512 * 512 + n2 % 512) * 512 + n1 % 512) * 512 + n % 512
  {
    Joined(n3 / 512, n3 % 512, n2 % 512, n1 % 512, n % 512, n);
  }

  lemma Joined(q: nat, d3: nat, d2: nat, d1: nat, d0: nat, n: nat)
    requires d3 < 512 && d2 < 512 && d1 < 512 && d0 < 512 && n == (((q * 512 + d3) * 512 + d2) * 512 + d1) * 512 + d0
    ensures n % 0x10_0000_0000 == ((d3 * 512 + d2) * 512 + d1) * 512 + d0
  {
  }

  /** Where a walk ends: at a missing table, at a last-level entry, or at a large page with `rest` levels to go. */
  datatype Found = Missing | Leaf(e: Pte) | Large(e: Pte, rest: nat)

  /** Only below the top level does the large-page bit end a walk. */
  predicate Ends(e: Pte, levels: nat) { e.ps && levels < LEVELS }

  function Walk(tables: Tables, f: nat, idx: seq<nat>): Found
    requires idx != [] && InBounds(idx)
    decreases |idx|
  {
    if !IsTable(tables, f) then Missing
    else
      var e := tables[f][idx[0]];
      if |idx| == 1 then Leaf(e)
      else if !e.present then Missing
      else if Ends(e, |idx|) then Large(e, |idx| - 1)
      else Walk(tables, e.frame, idx[1..])
  }

  /** A table hangs under entry `e` at depth `depth`. */
  predicate HasChild(e: Pte, depth: nat) { depth < LEVELS - 1 && e.present && !(e.ps && depth > 0) }

  /** `path` assigns every table its place in the tree under `root`; so no table is reached along two paths. */
  ghost predicate Tree(tables: Tables, root: nat, path: map<nat, seq<nat>>) {
    && root in path && path[root] == [] && 0 !in path
    && (forall f | f in path :: IsTable(tables, f) && |path[f]| < LEVELS && InBounds(path[f]))
    && (forall f, i {:trigger tables[f][i]} | f in path && 0 <= i < ENTRIES && HasChild(tables[f][i], |path[f]|) ::
          tables[f][i].frame in path && path[tables[f][i].frame] == path[f] + [i])
  }

  /** Two sets of tables that lead the same way: same links above the last level, same entries on it. */
  ghost predicate SameWays(tables: Tables, tables': Tables, path: map<nat, seq<nat>>) {
    forall f | f in path && IsTable(tables, f) ::
      && IsTable(tables', f)
      && forall i {:trigger tables[f][i]} | 0 <= i < ENTRIES :: SameWay(tables[f][i], tables'[f][i], |path[f]|)
  }

  /** Above the last level the user bit alone may differ. */
  predicate SameWay(e: Pte, e': Pte, depth: nat) {
    e' == e || (depth < LEVELS - 1 && HasChild(e, depth) && e' == e.(user := true))
  }

  lemma {:induction false} SameWalk(tables: Tables, tables': Tables, root: nat, path: map<nat, seq<nat>>, f: nat,
                                    idx: seq<nat>)
    requires Tree(tables, root, path) && SameWays(tables, tables', path) && f in path
    requires idx != [] && InBounds(idx) && |path[f]| + |idx| == LEVELS
    ensures Walk(tables', f, idx) == Walk(tables, f, idx)
    decreases |idx|
  {
    var e := tables[f][idx[0]];
    assert SameWay(e, tables'[f][idx[0]], |path[f]|);
    if |idx| > 1 && e.present && !Ends(e, |idx|) {
      SameWalk(tables, tables', root, path, e.frame, idx[1..]);
    }
  }

  lemma SameTree(tables: Tables, tables': Tables, root: nat, path: map<nat, seq<nat>>)
    requires Tree(tables, root, path) && SameWays(tables, tables', path)
    ensures Tree(tables', root, path)
  {
    forall f, i | f in path && 0 <= i < ENTRIES && HasChild(tables'[f][i], |path[f]|)
      ensures tables'[f][i].frame in path && path[tables'[f][i].frame] == path[f] + [i]
    {
      assert SameWay(tables[f][i], tables'[f][i], |path[f]|);
    }
  }

  function Blank(): (r: seq<Pte>)
    ensures |r| == ENTRIES && forall i | 0 <= i < ENTRIES :: r[i] == NO_ENTRY
  {
    seq(ENTRIES, _ => NO_ENTRY)
  }

  /** A blank table at `child`, and `e` at parent[i]. */
  function WithTable(tables: Tables, parent: nat, i: nat, child: nat, e: Pte): Tables
    requires IsTable(tables, parent) && i < ENTRIES
  {
    tables[child := Blank()][parent := tables[parent][i := e]]
  }

  /** Two walks mean the same: they find the same, or both find nothing that is present. */
  predicate SameFound(x: Found, y: Found) {
    x == y || (Absent(x) && Absent(y))
  }

  predicate Absent(x: Found) { x.Missing? || (x.Leaf? && x.e == NO_ENTRY) }

  /** Hanging an empty table under an absent entry changes no translation. */
  lemma {:induction false} NewTableWalk(tables: Tables, root: nat, path: map<nat, seq<nat>>, parent: nat, i: nat,
                                        child: nat, e: Pte, f: nat, idx: seq<nat>)
    requires Tree(tables, root, path) && parent in path && i < ENTRIES && |path[parent]| < LEVELS - 1
    requires !tables[parent][i].present && child !in path && HasChild(e, |path[parent]|) && e.frame == child
    requires f in path && idx != [] && InBounds(idx) && |path[f]| + |idx| == LEVELS
    ensures SameFound(Walk(WithTable(tables, parent, i, child, e), f, idx), Walk(tables, f, idx))
    decreases |idx|
  {
    var x := tables[f][idx[0]];
    if |idx| > 1 && !(f == parent && idx[0] == i) && x.present && !Ends(x, |idx|) {
      NewTableWalk(tables, root, path, parent, i, child, e, x.frame, idx[1..]);
    }
  }

  lemma NewTableTree(tables: Tables, root: nat, path: map<nat, seq<nat>>, parent: nat, i: nat, child: nat, e: Pte)
    requires Tree(tables, root, path) && parent in path && i < ENTRIES && |path[parent]| < LEVELS - 1
    requires !tables[parent][i].present && child !in path && child != 0 && HasChild(e, |path[parent]|)
             && e.frame == child
    ensures Tree(WithTable(tables, parent, i, child, e), root, path[child := path[parent] + [i]])
  {
  }

  /** The walk along `idx` from `f` uses last-level table `leaf`. */
  predicate Reaches(tables: Tables, f: nat, idx: seq<nat>, leaf: nat)
    requires idx != [] && InBounds(idx)
    decreases |idx|
  {
    && IsTable(tables, f)
    && (if |idx| == 1 then f == leaf
        else tables[f][idx[0]].present && !Ends(tables[f][idx[0]], |idx|)
             && Reaches(tables, tables[f][idx[0]].frame, idx[1..], leaf))
  }

  /** Writing one entry of a last-level table changes what is found for exactly that page. */
  lemma {:induction false} LeafWalk(tables: Tables, root: nat, path: map<nat, seq<nat>>, leaf: nat, i: nat, e: Pte,
                                    f: nat, idx: seq<nat>)
    requires Tree(tables, root, path) && leaf in path && |path[leaf]| == LEVELS - 1 && i < ENTRIES
    requires f in path && idx != [] && InBounds(idx) && |path[f]| + |idx| == LEVELS
    requires path[f] + idx == path[leaf] + [i] ==> Reaches(tables, f, idx, leaf)
    ensures Walk(tables[leaf := tables[leaf][i := e]], f, idx) ==
            if path[f] + idx == path[leaf] + [i] then Leaf(e) else Walk(tables, f, idx)
    decreases |idx|
  {
    var x := tables[f][idx[0]];
    if |idx| > 1 {
      assert f != leaf;
      if x.present && !Ends(x, |idx|) {
        assert path[x.frame] + idx[1..] == path[f] + idx;
        LeafWalk(tables, root, path, leaf, i, e, x.frame, idx[1..]);
      }
    } else {
      assert (path[f] + idx)[..LEVELS - 1] == path[f] && (path[leaf] + [i])[..LEVELS - 1] == path[leaf];
      assert (path[f] + idx)[LEVELS - 1] == idx[0] && (path[leaf] + [i])[LEVELS - 1] == i;
    }
  }

  lemma LeafTree(tables: Tables, root: nat, path: map<nat, seq<nat>>, leaf: nat, i: nat, e: Pte)
    requires Tree(tables, root, path) && leaf in path && |path[leaf]| == LEVELS - 1 && i < ENTRIES
    ensures Tree(tables[leaf := tables[leaf][i := e]], root, path)
  {
  }
}
