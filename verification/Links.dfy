/** Linked lists threaded through a pool of nodes by index, as the kernel threads them by pointer; -1 is null. */
module Links {

  const NIL: int := -1

  ghost predicate Distinct(l: seq<int>) {
    forall i, j | 0 <= i < j < |l| :: l[i] != l[j]
  }

  ghost predicate Inside(l: seq<int>, n: nat) {
    forall i | 0 <= i < |l| :: 0 <= l[i] < n
  }

  /** The list without the element at `k`. */
  ghost function Cut(l: seq<int>, k: nat): (r: seq<int>)
    requires k < |l|
    ensures |r| == |l| - 1
    ensures forall i | 0 <= i < |r| :: r[i] == l[if i < k then i else i + 1]
  {
    l[..k] + l[k + 1..]
  }

  /** The list without its element `x`. */
  ghost function Without(l: seq<int>, x: int): (r: seq<int>)
    requires Distinct(l)
    ensures x !in l ==> r == l
    ensures forall k | 0 <= k < |l| && l[k] == x :: r == Cut(l, k)
  {
    if x in l then var k :| 0 <= k < |l| && l[k] == x; Cut(l, k) else l
  }

  lemma WithoutMembers(l: seq<int>, x: int)
    requires Distinct(l)
    ensures Distinct(Without(l, x))
    ensures forall y :: y in Without(l, x) <==> y in l && y != x
    ensures x in l ==> |Without(l, x)| == |l| - 1
  {
  }

  // ----- singly linked -----

  /** `first` and the `next` links spell out exactly `l`. */
  ghost predicate Chain(next: seq<int>, first: int, l: seq<int>) {
    && Distinct(l) && Inside(l, |next|)
    && first == (if l == [] then NIL else l[0])
    && forall i {:trigger next[l[i]]} | 0 <= i < |l| :: next[l[i]] == if i + 1 < |l| then l[i + 1] else NIL
  }

  lemma ChainFrame(next: seq<int>, next': seq<int>, first: int, l: seq<int>)
    requires Chain(next, first, l) && |next'| == |next|
    requires forall x | x in l && 0 <= x < |next| :: next'[x] == next[x]
    ensures Chain(next', first, l)
  {
  }

  /** A new node, in no list, changes none. */
  lemma ChainGrow(next: seq<int>, first: int, l: seq<int>)
    requires Chain(next, first, l)
    ensures Chain(next + [NIL], first, l) && |next| !in l
  {
  }

  lemma ChainPush(next: seq<int>, first: int, l: seq<int>, x: int)
    requires Chain(next, first, l) && 0 <= x < |next| && x !in l
    ensures Chain(next[x := first], x, [x] + l)
  {
  }

  lemma ChainPop(next: seq<int>, first: int, l: seq<int>)
    requires Chain(next, first, l) && l != []
    ensures first == l[0] && 0 <= first < |next| && Chain(next[first := NIL], next[first], l[1..])
  {
  }

  /** Unlinking the element at `k` by redirecting the pointer that leads to it. */
  lemma ChainUnlink(next: seq<int>, first: int, l: seq<int>, k: nat)
    requires Chain(next, first, l) && k < |l|
    ensures var x := l[k];
            var cut := if k == 0 then next else next[l[k - 1] := next[x]];
            Chain(cut[x := NIL], if k == 0 then next[x] else first, Cut(l, k))
  {
  }

  // ----- doubly linked -----

  /** Both link directions, the head and the tail spell out exactly `l`; nodes off the list have no links. */
  ghost predicate Dll(prev: seq<int>, next: seq<int>, head: int, tail: int, l: seq<int>) {
    && |prev| == |next| && Chain(next, head, l) && Backward(prev, tail, l)
    && forall x | 0 <= x < |next| && x !in l :: prev[x] == NIL && next[x] == NIL
  }

  /** A node is on the list exactly when it has a link or is the head. */
  lemma OnListIff(prev: seq<int>, next: seq<int>, head: int, tail: int, l: seq<int>, x: nat)
    requires Dll(prev, next, head, tail, l) && x < |next|
    ensures prev[x] != NIL || next[x] != NIL || x == head <==> x in l
  {
    if x in l {
      var k :| 0 <= k < |l| && l[k] == x;
      assert next[l[k]] == if k + 1 < |l| then l[k + 1] else NIL;
    }
  }

  /** `tail` and the `prev` links spell out `l` from its end. */
  ghost predicate Backward(prev: seq<int>, tail: int, l: seq<int>) {
    && Inside(l, |prev|)
    && tail == (if l == [] then NIL else l[|l| - 1])
    && (forall i {:trigger prev[l[i]]} | 0 <= i < |l| :: prev[l[i]] == if i > 0 then l[i - 1] else NIL)
  }

  lemma DllAddFront(prev: seq<int>, next: seq<int>, head: int, tail: int, l: seq<int>, x: int)
    requires Dll(prev, next, head, tail, l) && 0 <= x < |next| && x !in l
    ensures var prev1 := prev[x := NIL];
            Dll(if head != NIL then prev1[head := x] else prev1, next[x := head], x,
                if head != NIL then tail else x, [x] + l)
  {
  }

  /** What removing the node at `k` does to both link directions, the head and the tail. */
  lemma DllRemove(prev: seq<int>, next: seq<int>, head: int, tail: int, l: seq<int>, k: nat)
    requires Dll(prev, next, head, tail, l) && k < |l|
    ensures var x := l[k];
            var p, n := prev[x], next[x];
            && (p == NIL || 0 <= p < |next|) && (n == NIL || 0 <= n < |next|)
            && var next1 := if p != NIL then next[p := n] else next;
               var prev1 := if n != NIL then prev[n := p] else prev;
               Dll(prev1[x := NIL], next1[x := NIL], if p != NIL then head else n, if n != NIL then tail else p,
                   Cut(l, k))
  {
    var x := l[k];
    var p, n := prev[x], next[x];
    assert n == (if k + 1 < |l| then l[k + 1] else NIL) && p == (if k > 0 then l[k - 1] else NIL);
    ChainUnlink(next, head, l, k);
    BackwardUnlink(prev, tail, l, k);
  }

  lemma BackwardUnlink(prev: seq<int>, tail: int, l: seq<int>, k: nat)
    requires Backward(prev, tail, l) && Distinct(l) && k < |l|
    ensures var x := l[k];
            var p := prev[x];
            var cut := if k + 1 < |l| then prev[l[k + 1] := p] else prev;
            Backward(cut[x := NIL], if k + 1 < |l| then tail else p, Cut(l, k))
  {
  }

  lemma DllDistinct(prev: seq<int>, next: seq<int>, head: int, tail: int, l: seq<int>)
    requires Dll(prev, next, head, tail, l)
    ensures Distinct(l) && Inside(l, |next|)
  {
  }

  lemma DllBounds(prev: seq<int>, next: seq<int>, head: int, tail: int, l: seq<int>)
    requires Dll(prev, next, head, tail, l)
    ensures |prev| == |next| && NIL <= head < |next|
  {
  }

  lemma WithoutAll(l: seq<int>)
    requires Distinct(l)
    ensures forall x, y {:trigger y in Without(l, x)} :: y in Without(l, x) <==> y in l && y != x
  {
  }

  ghost predicate IsList(next: seq<int>, first: int) {
    exists l :: Chain(next, first, l)
  }

  // ----- lists that close on themselves -----

  /** The links lead through `p` and from its end back into it. */
  ghost predicate Lasso(next: seq<int>, first: int, p: seq<int>) {
    && p != [] && Distinct(p) && Inside(p, |next|) && first == p[0]
    && (forall i {:trigger next[p[i]]} | 0 <= i < |p| - 1 :: next[p[i]] == p[i + 1])
    && next[p[|p| - 1]] in p
  }

  /** A list would have to go through the whole path and then repeat a node. */
  lemma LassoIsNoList(next: seq<int>, first: int, p: seq<int>)
    requires Lasso(next, first, p)
    ensures !IsList(next, first)
  {
    if IsList(next, first) {
      var l :| Chain(next, first, l);
      var m := |p| - 1;
      forall i | 0 <= i <= m
        ensures i < |l| && l[i] == p[i]
      {
        Retrace(next, first, p, l, i);
      }
      assert false;
    }
  }

  lemma {:induction false} Retrace(next: seq<int>, first: int, p: seq<int>, l: seq<int>, i: nat)
    requires Lasso(next, first, p) && Chain(next, first, l) && i < |p|
    ensures i < |l| && l[i] == p[i]
  {
    if i > 0 {
      Retrace(next, first, p, l, i - 1);
      assert next[p[i - 1]] == p[i] && next[l[i - 1]] == if i < |l| then l[i] else NIL;
    }
  }

  /** The path after node `x` is pushed once more: up to the node, if it was on the path. */
  ghost function Pushed(p: seq<int>, x: int): (r: seq<int>)
    requires Distinct(p)
    ensures x in r && forall y | y in r && y != x :: y in p
    ensures x !in p ==> r == [x] + p
    ensures forall k | 0 <= k < |p| && p[k] == x :: r == [x] + p[..k]
  {
    if x in p then var k :| 0 <= k < |p| && p[k] == x; [x] + p[..k] else [x] + p
  }

  /** A path that leads from `x` back to `x`. */
  lemma Closes(next: seq<int>, x: nat, q: seq<int>)
    requires Distinct(q) && x !in q && Inside(q, |next|) && x < |next|
    requires next[x] == if q == [] then x else q[0]
    requires forall i {:trigger q[i]} | 0 <= i < |q| :: next[q[i]] == if i + 1 < |q| then q[i + 1] else x
    ensures Lasso(next, x, [x] + q)
  {
    var p := [x] + q;
    forall i {:trigger next[p[i]]} | 0 <= i < |p| - 1
      ensures next[p[i]] == p[i + 1]
    {
      if i > 0 { assert next[q[i - 1]] == q[i]; }
    }
    assert q == [] || next[q[|q| - 1]] == x;
  }

  /** Pushing a node on a list gives a list if the node was not on it, and closes a cycle if it was. */
  lemma PushOnList(next: seq<int>, first: int, l: seq<int>, x: nat, next': seq<int>)
    requires Chain(next, first, l) && x < |next| == |next'| && next'[x] == first
    requires forall y | y in l && y != x && 0 <= y < |next| :: next'[y] == next[y]
    ensures x !in l ==> Chain(next', x, [x] + l)
    ensures x in l ==> Lasso(next', x, Pushed(l, x))
  {
    if x in l {
      var k :| 0 <= k < |l| && l[k] == x;
      forall i {:trigger l[..k][i]} | 0 <= i < k
        ensures next'[l[..k][i]] == if i + 1 < k then l[..k][i + 1] else x
      {
        assert l[i] in l && next[l[i]] == l[i + 1];
      }
      Closes(next', x, l[..k]);
    }
  }

  /** Once closed, the list stays closed whatever is pushed. */
  lemma PushOnLasso(next: seq<int>, first: int, p: seq<int>, x: nat, next': seq<int>)
    requires Lasso(next, first, p) && x < |next| == |next'| && next'[x] == first
    requires forall y | y in p && y != x && 0 <= y < |next| :: next'[y] == next[y]
    ensures Lasso(next', x, Pushed(p, x))
  {
    if x in p {
      var k :| 0 <= k < |p| && p[k] == x;
      forall i {:trigger p[..k][i]} | 0 <= i < k
        ensures next'[p[..k][i]] == if i + 1 < k then p[..k][i + 1] else x
      {
        assert p[i] in p && next[p[i]] == p[i + 1];
      }
      Closes(next', x, p[..k]);
    } else {
      LassoLonger(next, first, p, x, next');
    }
  }

  lemma LassoLonger(next: seq<int>, first: int, p: seq<int>, x: nat, next': seq<int>)
    requires Lasso(next, first, p) && x < |next| == |next'| && next'[x] == first && x !in p
    requires forall y | y in p && y != x && 0 <= y < |next| :: next'[y] == next[y]
    ensures Lasso(next', x, [x] + p)
  {
    var q, m := [x] + p, |p| - 1;
    forall i {:trigger next'[q[i]]} | 0 <= i < |q| - 1
      ensures next'[q[i]] == q[i + 1]
    {
      if i > 0 { assert p[i - 1] in p && next[p[i - 1]] == p[i]; }
    }
    assert p[m] in p && q[m + 1] == p[m] && next'[p[m]] == next[p[m]];
    assert next[p[m]] in q;
  }
}
