/** Parents, children lists and the process list, as the process code links them through the processes by index. */
module Family {
  import opened Links

  /**
    * `kids[p]` spells out the children list of `p`: the processes not yet reaped whose parent is `p`, except those in
    * `rest`, which are between two lists.
    */
  ghost predicate Kin(pid: seq<nat>, parent: seq<int>, first: seq<int>, sibling: seq<int>, kids: seq<seq<int>>,
                      rest: seq<int>)
  {
    && |parent| == |pid| && |first| == |pid| && |sibling| == |pid| && |kids| == |pid|
    && (forall p {:trigger kids[p]} | 0 <= p < |pid| :: Chain(sibling, first[p], kids[p]))
    && (forall p, c {:trigger c in kids[p]} | 0 <= p < |pid| && 0 <= c < |pid| ::
          c in kids[p] <==> parent[c] == p && pid[c] != 0 && c !in rest)
    && (forall c {:trigger parent[c]} | 0 <= c < |pid| :: -1 <= parent[c] < c)
  }

  /** The process list holds exactly the processes not yet reaped, each with a pid of its own. */
  ghost predicate Listed(pid: seq<nat>, next: seq<int>, head: int, all: seq<int>, nextPid: nat) {
    && |next| == |pid| && Chain(next, head, all) && nextPid > 0 && (nextPid == 1 <==> |pid| == 0)
    && (forall c {:trigger pid[c]} | 0 <= c < |pid| :: c in all <==> pid[c] != 0)
    && (forall c {:trigger pid[c]} | 0 <= c < |pid| :: pid[c] < nextPid)
    && (forall c, d | 0 <= c < d < |pid| && pid[c] != 0 :: pid[c] != pid[d])
    && (forall c {:trigger pid[c]} | 0 <= c < |pid| && pid[c] == 1 :: c == 0)
  }

  lemma Enlist(pid: seq<nat>, next: seq<int>, head: int, all: seq<int>, nextPid: nat)
    requires Listed(pid, next, head, all, nextPid)
    ensures Listed(pid + [nextPid], next + [head], |pid|, [|pid|] + all, nextPid + 1)
  {
  }

  /** Removing a process from the list and clearing its pid. */
  lemma Unlist(pid: seq<nat>, next: seq<int>, head: int, all: seq<int>, nextPid: nat, next': seq<int>, head': int,
               k: nat)
    requires Listed(pid, next, head, all, nextPid) && |next'| == |pid| && k < |all| && Chain(next', head', Cut(all, k))
    ensures Listed(pid[all[k] := 0], next', head', Cut(all, k), nextPid)
  {
  }

  /** A child that is in no list joins the front of the list of `p`, if there is a `p`. */
  lemma Adopt(pid: seq<nat>, parent: seq<int>, first: seq<int>, sibling: seq<int>, kids: seq<seq<int>>, rest: seq<int>,
              c: int, p: int)
    requires Kin(pid, parent, first, sibling, kids, [c] + rest) && 0 <= c < |pid| && pid[c] != 0 && c !in rest
    requires -1 <= p < c
    ensures p != NIL ==> Kin(pid, parent[c := p], first[p := c], sibling[c := first[p]], kids[p := [c] + kids[p]], rest)
    ensures p == NIL ==> Kin(pid, parent[c := NIL], first, sibling[c := NIL], kids, rest)
  {
    assert c in [c] + rest;
    forall q | 0 <= q < |pid|
      ensures c !in kids[q]
    {
    }
    var sibling' := sibling[c := if p == NIL then NIL else first[p]];
    forall q | 0 <= q < |pid|
      ensures Chain(sibling', first[q], kids[q])
    {
      ChainFrame(sibling, sibling', first[q], kids[q]);
    }
    if p != NIL {
      ChainPush(sibling, first[p], kids[p], c);
    }
  }

  /** The head of `rest` is reaped. */
  lemma Bury(pid: seq<nat>, parent: seq<int>, first: seq<int>, sibling: seq<int>, kids: seq<seq<int>>, rest: seq<int>,
             c: int)
    requires Kin(pid, parent, first, sibling, kids, [c] + rest) && 0 <= c < |pid| && c !in rest
    ensures Kin(pid[c := 0], parent, first, sibling, kids, rest)
  {
  }

  /** The `k`-th child of `p` leaves its list. */
  lemma Leave(pid: seq<nat>, parent: seq<int>, first: seq<int>, sibling: seq<int>, kids: seq<seq<int>>, p: int, k: nat)
    requires Kin(pid, parent, first, sibling, kids, []) && 0 <= p < |pid| && k < |kids[p]|
    ensures var c := kids[p][k];
            Kin(pid, parent, if k == 0 then first[p := sibling[c]] else first,
                if k == 0 then sibling else sibling[kids[p][k - 1] := sibling[c]], kids[p := Cut(kids[p], k)], [c])
  {
    var l, c := kids[p], kids[p][k];
    var l' := Cut(l, k);
    var first' := if k == 0 then first[p := sibling[c]] else first;
    var sibling' := if k == 0 then sibling else sibling[l[k - 1] := sibling[c]];
    ChainUnlink(sibling, first[p], l, k);
    ChainFrame(sibling'[c := NIL], sibling', first'[p], l');
    assert l[k] in kids[p] && (k > 0 ==> l[k - 1] in kids[p]);
    forall q | 0 <= q < |pid| && q != p
      ensures Chain(sibling', first'[q], kids[q])
    {
      ChainFrame(sibling, sibling', first[q], kids[q]);
    }
    forall d | 0 <= d < |pid|
      ensures d in l' <==> d in l && d != c
    {
      CutMembers(l, k, d);
    }
  }

  lemma CutMembers(l: seq<int>, k: nat, d: int)
    requires Distinct(l) && k < |l|
    ensures d in Cut(l, k) <==> d in l && d != l[k]
  {
  }

  /** A new process, whose parent is `p` or nobody, is in no list yet. */
  lemma Birth(pid: seq<nat>, parent: seq<int>, first: seq<int>, sibling: seq<int>, kids: seq<seq<int>>, id: nat, p: int)
    requires Kin(pid, parent, first, sibling, kids, []) && -1 <= p < |pid|
    ensures Kin(pid + [id], parent + [p], first + [NIL], sibling + [NIL], kids + [[]], [|pid|])
  {
  }
}
