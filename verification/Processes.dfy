/** Creating, waiting for, killing and reaping processes, over the scheduler. A process has one thread, of the same
    index. */
module Processes {
  import opened Links
  import opened Family
  import opened Scheduler

  /** The fields of all processes: children list, sibling link, waiting thread, process list, and so on. */
  datatype Table = Table(pid: seq<nat>, parent: seq<int>, first: seq<int>, sibling: seq<int>, zombie: seq<bool>,
                         exitCode: seq<int>, waiter: seq<int>, stopped: seq<bool>, listNext: seq<int>, listHead: int,
                         nextPid: nat)

  /** What the links spell out, what each blocked process waits for, and who was reaped with which exit code. */
  datatype Trace = Trace(kids: seq<seq<int>>, all: seq<int>, want: seq<int>, reaped: seq<int>, codes: seq<int>)

  /** waitpid's argument: any child, or the one with that pid. */
  ghost predicate Matches(wanted: int, pid: nat) { wanted == -1 || wanted == pid }

  /** A process is dead from its exit on; a dead one is a zombie until it is reaped, which clears its pid. */
  ghost predicate Dead(state: seq<State>, zombie: seq<bool>, pid: seq<nat>) {
    && |state| == |pid| && |zombie| == |pid|
    && forall p {:trigger state[p]} {:trigger zombie[p]} | 0 <= p < |pid| ::
         && (state[p].Zombie? <==> zombie[p] || pid[p] == 0)
         && (zombie[p] ==> pid[p] != 0)
  }

  /** Who is blocked, `x` apart, can be woken, and has no child to collect. */
  ghost predicate Patient(state: seq<State>, waiter: seq<int>, want: seq<int>, kids: seq<seq<int>>, zombie: seq<bool>,
                          pid: seq<nat>, x: int)
  {
    && |state| == |pid| && |waiter| == |pid| && |want| == |pid| && |kids| == |pid| && |zombie| == |pid|
    && (forall p {:trigger waiter[p]} | 0 <= p < |pid| :: waiter[p] == NIL || waiter[p] == p)
    && (forall p {:trigger state[p]} | 0 <= p < |pid| && state[p].Blocked? :: waiter[p] == p)
    && (forall p, c {:trigger c in kids[p]} | 0 <= p < |pid| && p != x && state[p].Blocked? && 0 <= c < |pid|
          && c in kids[p] ::
          zombie[c] ==> !Matches(want[p], pid[c]))
  }

  /** Nobody is reaped twice, exactly the reaped have lost their pid, and each was reaped with its own exit code. */
  ghost predicate Ledger(reaped: seq<int>, codes: seq<int>, pid: seq<nat>, exitCode: seq<int>) {
    && |codes| == |reaped| && |exitCode| == |pid| && Distinct(reaped) && Inside(reaped, |pid|)
    && (forall c {:trigger pid[c]} | 0 <= c < |pid| :: c in reaped <==> pid[c] == 0)
    && (forall i {:trigger codes[i]} | 0 <= i < |reaped| :: codes[i] == exitCode[reaped[i]])
  }

  /** Only the living have children, except that a dead init (pid 1) keeps adopting. */
  ghost predicate Cared(state: seq<State>, kids: seq<seq<int>>, pid: seq<nat>) {
    && |state| == |pid| && |kids| == |pid|
    && forall p {:trigger kids[p]} | 0 <= p < |pid| && kids[p] != [] :: !state[p].Zombie? || pid[p] == 1
  }

  function Cleared(first: seq<int>, d: int): seq<int> { if 0 <= d < |first| then first[d := NIL] else first }

  /**
    * All of it together, while the children `rest` of a dying process `d` are on their way to another parent and `x`
    * has not been told of a death.
    */
  ghost predicate Between(state: seq<State>, t: Table, g: Trace, d: int, rest: seq<int>, x: int) {
    && Kin(t.pid, t.parent, Cleared(t.first, d), t.sibling, g.kids, rest)
    && Listed(t.pid, t.listNext, t.listHead, g.all, t.nextPid)
    && Dead(state, t.zombie, t.pid)
    && Patient(state, t.waiter, g.want, g.kids, t.zombie, t.pid, x)
    && Ledger(g.reaped, g.codes, t.pid, t.exitCode)
    && Cared(state, g.kids, t.pid)
    && |t.stopped| == |t.pid|
    && Orphans(t.pid, t.parent, rest)
  }

  ghost predicate Orphans(pid: seq<nat>, parent: seq<int>, rest: seq<int>) {
    |parent| == |pid| && forall c {:trigger c in rest} | c in rest :: 0 <= c < |pid| && pid[c] != 0 && parent[c] != NIL
  }

  ghost predicate Sound(state: seq<State>, t: Table, g: Trace) { Between(state, t, g, NIL, [], NIL) }

  lemma Lengths(state: seq<State>, t: Table, g: Trace)
    requires Sound(state, t, g)
    ensures |state| == |t.pid| && |t.parent| == |t.pid| && |t.first| == |t.pid| && |t.sibling| == |t.pid|
    ensures |t.zombie| == |t.pid| && |t.exitCode| == |t.pid| && |t.waiter| == |t.pid| && |t.listNext| == |t.pid|
            == |t.stopped|
    ensures |g.kids| == |t.pid| && |g.want| == |t.pid| && t.nextPid > 0 && |g.codes| == |g.reaped|
  {
  }

  lemma BetweenLengths(state: seq<State>, t: Table, g: Trace, d: int, rest: seq<int>, x: int)
    requires Between(state, t, g, d, rest, x)
    ensures |state| == |t.pid| && |t.parent| == |t.pid| && |t.first| == |t.pid| && |t.sibling| == |t.pid|
    ensures |t.zombie| == |t.pid| && |t.exitCode| == |t.pid| && |t.waiter| == |t.pid| && |t.listNext| == |t.pid|
            == |t.stopped|
    ensures |g.kids| == |t.pid| && |g.want| == |t.pid| && t.nextPid > 0 && |g.codes| == |g.reaped|
  {
  }

  lemma OrphanFacts(state: seq<State>, t: Table, g: Trace, d: int, rest: seq<int>, x: int)
    requires Between(state, t, g, d, rest, x)
    ensures forall c | c in rest :: 0 <= c < |t.pid| && t.pid[c] != 0 && 0 < c
    ensures Listed(t.pid, t.listNext, t.listHead, g.all, t.nextPid)
  {
  }

  lemma ChainDistinct(next: seq<int>, first: int, l: seq<int>)
    requires Chain(next, first, l)
    ensures Distinct(l) && first == if l == [] then NIL else l[0]
  {
  }

  lemma NoOrphans(state: seq<State>, t: Table, g: Trace, d: int, x: int)
    requires Between(state, t, g, d, [], x) && 0 <= d < |t.first|
    ensures Between(state, t.(first := t.first[d := NIL]), g, NIL, [], x)
  {
  }

  lemma SoundIs(state: seq<State>, t: Table, g: Trace)
    ensures Sound(state, t, g) <==> Between(state, t, g, NIL, [], NIL)
  {
  }

  // ----- birth -----

  /** The children lists once `c`, with no children of its own, joined that of `p`. */
  ghost function Joined(kids: seq<seq<int>>, p: int, c: int): seq<seq<int>> {
    if 0 <= p < |kids| then kids[p := [c] + kids[p]] + [[]] else kids + [[]]
  }

  lemma NewBorn(pid: seq<nat>, parent: seq<int>, first: seq<int>, sibling: seq<int>, kids: seq<seq<int>>, id: nat,
                p: int)
    requires Kin(pid, parent, first, sibling, kids, []) && -1 <= p < |pid| && id > 0
    ensures var first' := first + [NIL];
            Kin(pid + [id], parent + [p], if p == NIL then first' else first'[p := |pid|],
                sibling + [if p == NIL then NIL else first[p]], Joined(kids, p, |pid|), [])
  {
    var c := |pid|;
    Birth(pid, parent, first, sibling, kids, id, p);
    assert [c] == [c] + [];
    Adopt(pid + [id], parent + [p], first + [NIL], sibling + [NIL], kids + [[]], [], c, p);
    assert (parent + [p])[c := p] == parent + [p];
    assert (sibling + [NIL])[c := NIL] == sibling + [NIL];
    if p != NIL {
      assert (sibling + [NIL])[c := first[p]] == sibling + [first[p]];
      assert (kids + [[]])[p := [c] + kids[p]] == kids[p := [c] + kids[p]] + [[]];
    }
  }

  /** A new process is alive, unreaped and waits for nobody. */
  lemma Fresh(state: seq<State>, t: Table, g: Trace, id: nat, p: int)
    requires Sound(state, t, g) && id > 0 && (p == NIL || (0 <= p < |state| && state[p].Running?))
    ensures var kids := Joined(g.kids, p, |t.pid|);
            && Dead(state + [Ready], t.zombie + [false], t.pid + [id])
            && Patient(state + [Ready], t.waiter + [NIL], g.want + [0], kids, t.zombie + [false], t.pid + [id], NIL)
            && Ledger(g.reaped, g.codes, t.pid + [id], t.exitCode + [0])
            && Cared(state + [Ready], kids, t.pid + [id])
  {
    var n, kids' := |t.pid|, Joined(g.kids, p, |t.pid|);
    forall q, c | 0 <= q <= n && (state + [Ready])[q].Blocked? && 0 <= c <= n && c in kids'[q]
      ensures (t.zombie + [false])[c] ==> !Matches((g.want + [0])[q], (t.pid + [id])[c])
    {
      assert kids'[q] == g.kids[q];
    }
    forall q | 0 <= q <= n && kids'[q] != []
      ensures !(state + [Ready])[q].Zombie? || (t.pid + [id])[q] == 1
    {
      assert q < n ==> g.kids[q] != [] || q == p;
    }
    assert n !in g.reaped;
  }

  // ----- death -----

  lemma LedgerEntry(reaped: seq<int>, codes: seq<int>, pid: seq<nat>, exitCode: seq<int>, c: int)
    requires Ledger(reaped, codes, pid, exitCode) && 0 <= c < |pid| && pid[c] != 0
    ensures Ledger(reaped + [c], codes + [exitCode[c]], pid[c := 0], exitCode)
  {
  }

  /** The first orphan was a zombie and is reaped. */
  lemma BuryStep(state: seq<State>, t: Table, g: Trace, d: int, rest: seq<int>, x: int, t': Table, all': seq<int>)
    requires Between(state, t, g, d, rest, x) && rest != [] && Distinct(rest)
    requires var c := rest[0];
             && 0 <= c < |t.pid| && |t.zombie| == |t.pid| && t.zombie[c]
             && t' == t.(pid := t.pid[c := 0], zombie := t.zombie[c := false], listNext := t'.listNext, listHead :=
                   t'.listHead)
             && Listed(t'.pid, t'.listNext, t'.listHead, all', t'.nextPid) && |t.exitCode| == |t.pid|
    ensures Between(state, t', g.(all := all', reaped := g.reaped + [rest[0]], codes :=
            g.codes + [t.exitCode[rest[0]]]), d, rest[1..], x)
  {
    var c := rest[0];
    assert rest == [c] + rest[1..];
    Bury(t.pid, t.parent, Cleared(t.first, d), t.sibling, g.kids, rest[1..], c);
    LedgerEntry(g.reaped, g.codes, t.pid, t.exitCode, c);
    assert c in rest && 0 <= t.parent[c] < c && t.pid[c] != 1;
    assert Patient(state, t'.waiter, g.want, g.kids, t'.zombie, t'.pid, x) by {
      assert c in rest;
    }
    assert Orphans(t'.pid, t'.parent, rest[1..]) by {
      forall e | e in rest[1..]
        ensures e in rest && e != c
      {
      }
    }
  }

  /** The first orphan lives and moves to the list of `h`, or to no list. */
  lemma AdoptStep(state: seq<State>, t: Table, g: Trace, d: int, rest: seq<int>, x: int, h: int, t': Table,
                  kids': seq<seq<int>>)
    requires Between(state, t, g, d, rest, x) && rest != [] && Distinct(rest) && 0 <= d && h != d
    requires var c := rest[0];
             && 0 <= c < |t.pid| && |t.zombie| == |t.pid| && !t.zombie[c]
                   && (h == NIL || (0 <= h < |t.pid| && t.pid[h] == 1))
             && |t.first| == |t.pid| && |t.sibling| == |t.pid| && |t.parent| == |t.pid| && |g.kids| == |t.pid|
             && t' == t.(parent := t.parent[c := h], sibling := t.sibling[c := if h == NIL then NIL else t.first[h]],
                         first := if h == NIL then t.first else t.first[h := c])
             && kids' == if h == NIL then g.kids else g.kids[h := [c] + g.kids[h]]
    ensures Between(state, t', g.(kids := kids'), d, rest[1..], x)
  {
    hide Dead, Ledger, Listed, Chain;
    var c := rest[0];
    assert rest == [c] + rest[1..];
    assert c in rest && 0 <= t.parent[c] < c;
    if h != NIL { InitFirst(t.pid, t.listNext, t.listHead, g.all, t.nextPid, h); }
    assert h < c;
    var first := Cleared(t.first, d);
    Adopt(t.pid, t.parent, first, t.sibling, g.kids, rest[1..], c, h);
    if h != NIL {
      assert first[h] == t.first[h];
      assert Cleared(t'.first, d) == first[h := c];
    }
    assert Orphans(t'.pid, t'.parent, rest[1..]) by {
      forall e | e in rest[1..]
        ensures e in rest && e != c
      {
      }
    }
  }

  /** Where the living children of `d` go: to the process with pid 1, unless that is `d` itself or gone. */
  ghost function Heir(t: Table, d: int): int {
    if |t.pid| > 0 && t.pid[0] == 1 && d != 0 then 0 else NIL
  }

  /** The zombies among `l`, in order. */
  ghost function Buried(l: seq<int>, zombie: seq<bool>): seq<int> {
    if l == [] then []
    else Buried(l[..|l| - 1], zombie)
         + (if 0 <= l[|l| - 1] < |zombie| && zombie[l[|l| - 1]] then [l[|l| - 1]] else [])
  }

  lemma HeirIs(t: Table, all: seq<int>, h: int, d: int)
    requires Listed(t.pid, t.listNext, t.listHead, all, t.nextPid)
    requires (h == NIL <==> 1 !in t.pid) && (h != NIL ==> 0 <= h < |t.pid| && t.pid[h] == 1)
    ensures Heir(t, d) == if h != NIL && h != d then h else NIL
  {
  }

  lemma InitFirst(pid: seq<nat>, next: seq<int>, head: int, all: seq<int>, nextPid: nat, h: int)
    requires Listed(pid, next, head, all, nextPid) && 0 <= h < |pid| && pid[h] == 1
    ensures h == 0
  {
  }

  lemma SettledLengths(was: Table, now: Table, done: seq<int>, heir: int)
    requires Settled(was, now, done, heir)
    ensures |was.zombie| == |was.pid| == |now.pid|
    ensures forall c | 0 <= c < |was.pid| && c !in done :: now.zombie[c] == was.zombie[c]
  {
  }

  lemma SettledFirst(was: Table, now: Table, done: seq<int>, heir: int, first: seq<int>)
    requires Settled(was, now, done, heir)
    ensures Settled(was, now.(first := first), done, heir)
  {
  }

  lemma AllVisited(rest: seq<int>, i: nat, child: int)
    requires i <= |rest| && child == (if i < |rest| then rest[i] else NIL) && child == NIL
    requires forall j | 0 <= j < |rest| :: rest[j] >= 0
    ensures i == |rest|
  {
  }

  lemma SettleNone(t: Table, heir: int)
    requires |t.pid| == |t.zombie| == |t.parent|
    ensures Settled(t, t, [], heir)
  {
  }

  lemma SettleMore(was: Table, mid: Table, now: Table, done: seq<int>, c: int, heir: int)
    requires Settled(was, mid, done, heir) && Settled(mid, now, [c], heir) && c !in done
    ensures Settled(was, now, done + [c], heir)
  {
  }

  lemma BuriedNone(zombie: seq<bool>)
    ensures Buried([], zombie) == []
  {
  }

  lemma BuriedMore(l: seq<int>, c: int, zombie: seq<bool>)
    requires 0 <= c < |zombie|
    ensures Buried(l + [c], zombie) == Buried(l, zombie) + if zombie[c] then [c] else []
  {
  }

  lemma RestLinks(sibling: seq<int>, sibling': seq<int>, first: int, rest: seq<int>)
    requires Chain(sibling, first, rest) && rest != [] && |sibling'| == |sibling|
    requires sibling'[rest[0] := 0] == sibling[rest[0] := 0]
    ensures Chain(sibling', sibling[rest[0]], rest[1..])
  {
    ChainPop(sibling, first, rest);
    forall y | y in rest[1..] && 0 <= y < |sibling|
      ensures sibling'[y] == sibling[rest[0] := NIL][y]
    {
      assert y != rest[0];
      assert sibling'[rest[0] := 0][y] == sibling[rest[0] := 0][y];
    }
    ChainFrame(sibling[rest[0] := NIL], sibling', sibling[rest[0]], rest[1..]);
  }

  /** The orphans `done` have been dealt with, and nobody else has changed. */
  ghost predicate Settled(was: Table, now: Table, done: seq<int>, heir: int) {
    && |was.pid| == |now.pid| == |was.zombie| == |now.zombie| == |was.parent| == |now.parent|
    && now.exitCode == was.exitCode && now.waiter == was.waiter && now.stopped == was.stopped
          && now.nextPid == was.nextPid
    && forall c {:trigger now.pid[c]} {:trigger now.zombie[c]} {:trigger now.parent[c]} | 0 <= c < |was.pid| ::
         && now.pid[c] == (if c in done && was.zombie[c] then 0 else was.pid[c])
         && now.zombie[c] == (was.zombie[c] && c !in done)
         && now.parent[c] == (if c in done && !was.zombie[c] then heir else was.parent[c])
  }

  lemma {:induction false} BuriedSame(l: seq<int>, zombie: seq<bool>, me: int)
    requires me !in l && 0 <= me < |zombie|
    ensures Buried(l, zombie[me := true]) == Buried(l, zombie)
  {
    if l != [] {
      BuriedSame(l[..|l| - 1], zombie, me);
    }
  }

  /** A death: the children lose their place, and the parent has not been told. */
  lemma DieStep(state: seq<State>, t: Table, g: Trace, me: int)
    requires Sound(state, t, g) && 0 <= me < |t.pid| && me < |state| && !state[me].Zombie?
    requires |t.zombie| == |t.pid| == |g.kids| == |t.first| == |t.parent|
    ensures Between(state[me := Zombie], t.(zombie := t.zombie[me := true]), g.(kids := g.kids[me := []]), me,
            g.kids[me],
                    t.parent[me])
    ensures Chain(t.sibling, t.first[me], g.kids[me]) && me !in g.kids[me] && -1 <= t.parent[me] < me
  {
  }

  /** The parent is told: if it was blocked it is ready, and nobody is left untold. */
  lemma WakeStep(state: seq<State>, t: Table, g: Trace, x: int)
    requires Between(state, t, g, NIL, [], x) && -1 <= x < |state| && |state| == |t.pid| == |t.waiter|
    ensures x == NIL ==> Sound(state, t, g)
    ensures x != NIL && t.waiter[x] == NIL ==> Sound(state, t, g) && !state[x].Blocked?
    ensures x != NIL && t.waiter[x] != NIL ==>
              && t.waiter[x] == x
              && Sound(if state[x].Blocked? then state[x := Ready] else state, t.(waiter := t.waiter[x := NIL]), g)
  {
  }

  /** Dispatching threads does not concern the families. */
  lemma Rescheduled(state: seq<State>, state': seq<State>, t: Table, g: Trace)
    requires Sound(state, t, g) && |state'| == |state|
    requires forall p {:trigger state'[p]} | 0 <= p < |state| ::
               (state'[p].Zombie? <==> state[p].Zombie?) && (state'[p].Blocked? ==> state[p].Blocked?)
    ensures Sound(state', t, g)
  {
  }

  /**
    * No dead child is lost: until it is reaped, which happens once and with its own exit code, it stands in the list of
    * its parent alone, and the parent is not asleep over it.
    */
  lemma NoLostChild(state: seq<State>, t: Table, g: Trace, c: int)
    requires Sound(state, t, g) && 0 <= c < |state| && state[c].Zombie?
    ensures |t.zombie| == |t.pid| == |t.parent| == |state| == |g.kids| == |t.waiter| == |g.want| == |t.exitCode|
    ensures t.zombie[c] <==> c !in g.reaped
    ensures forall i, j | 0 <= i < |g.reaped| && 0 <= j < |g.reaped| && g.reaped[i] == c == g.reaped[j] :: i == j
    ensures forall i | 0 <= i < |g.reaped| && g.reaped[i] == c :: |g.codes| == |g.reaped| && g.codes[i] == t.exitCode[c]
    ensures forall q | 0 <= q < |state| :: c in g.kids[q] <==> t.zombie[c] && q == t.parent[c]
    ensures t.zombie[c] && t.parent[c] != NIL ==>
              var p := t.parent[c];
              && 0 <= p < c && (state[p].Zombie? ==> t.pid[p] == 1)
              && (state[p].Blocked? ==> t.waiter[p] == p && g.want[p] != -1 && g.want[p] != t.pid[c])
  {
    forall i | 0 <= i < |g.reaped| && g.reaped[i] == c
      ensures g.codes[i] == t.exitCode[c]
    {
      assert g.codes[i] == t.exitCode[g.reaped[i]];
    }
    if t.zombie[c] && t.parent[c] != NIL {
      assert c in g.kids[t.parent[c]];
    }
  }

  // ----- waiting -----

  datatype WaitResult = NoChild | Collected(pid: nat, code: int) | NotYet | Slept

  /** None of the first `n` children in `l` can be collected. */
  ghost predicate NoMatch(l: seq<int>, t: Table, wanted: int, n: nat) {
    |t.zombie| == |t.pid| && n <= |l|
    && forall i {:trigger l[i]} | 0 <= i < n :: 0 <= l[i] < |t.pid| ==>
          !(Matches(wanted, t.pid[l[i]]) && t.zombie[l[i]])
  }

  /** The `k`-th child is the first that can be collected. */
  ghost predicate FirstMatch(l: seq<int>, t: Table, wanted: int, k: nat) {
    && NoMatch(l, t, wanted, k) && k < |l| && 0 <= l[k] < |t.pid| == |t.exitCode|
    && Matches(wanted, t.pid[l[k]]) && t.zombie[l[k]]
  }

  /** A child of `p` that has exited and was not reaped. */
  ghost predicate DeadChild(t: Table, g: Trace, p: int, c: int) {
    0 <= p < |g.kids| && c in g.kids[p] && 0 <= c < |t.pid| == |t.zombie| && t.zombie[c]
  }

  lemma KidsInside(state: seq<State>, t: Table, g: Trace, p: int)
    requires Sound(state, t, g) && 0 <= p < |g.kids|
    ensures Inside(g.kids[p], |t.pid|)
  {
  }

  lemma CodeStep(state: seq<State>, t: Table, g: Trace, me: int, code: int)
    requires Sound(state, t, g) && 0 <= me < |t.pid| && |state| == |t.exitCode| == |t.pid| && !state[me].Zombie?
    ensures Sound(state, t.(exitCode := t.exitCode[me := code]), g)
  {
  }

  lemma StopStep(state: seq<State>, t: Table, g: Trace, p: int)
    requires Sound(state, t, g) && 0 <= p < |t.stopped|
    ensures Sound(state, t.(stopped := t.stopped[p := true]), g)
  {
  }

  lemma KidsChain(state: seq<State>, t: Table, g: Trace, p: int)
    requires Sound(state, t, g) && 0 <= p < |t.pid| && |g.kids| == |t.first| == |t.pid|
    ensures Chain(t.sibling, t.first[p], g.kids[p])
  {
  }

  lemma CollectStep(state: seq<State>, t: Table, g: Trace, p: int, k: nat)
    requires Sound(state, t, g) && 0 <= p < |g.kids| == |t.pid| == |t.first| && k < |g.kids[p]|
    requires |t.sibling| == |t.pid|
    ensures var l := g.kids[p];
            var c := l[k];
            && 0 <= c < |t.pid| && (k > 0 ==> 0 <= l[k - 1] < |t.pid|)
            && Between(state, t.(first := if k == 0 then t.first[p := t.sibling[c]] else t.first,
                                 sibling := if k == 0 then t.sibling else t.sibling[l[k - 1] := t.sibling[c]]),
                       g.(kids := g.kids[p := Cut(l, k)]), NIL, [c], NIL)
  {
    Leave(t.pid, t.parent, t.first, t.sibling, g.kids, p, k);
    assert g.kids[p][k] in g.kids[p];
    forall c | c in Cut(g.kids[p], k)
      ensures c in g.kids[p]
    {
      CutMembers(g.kids[p], k, c);
    }
  }

  lemma SleepStep(state: seq<State>, t: Table, g: Trace, p: int, wanted: int)
    requires Sound(state, t, g) && 0 <= p < |t.pid| == |state| == |t.waiter| == |g.want| == |g.kids|
             && state[p].Running?
    requires NoMatch(g.kids[p], t, wanted, |g.kids[p]|)
    ensures Sound(state[p := Blocked], t.(waiter := t.waiter[p := p]), g.(want := g.want[p := wanted]))
  {
  }

  /** What can happen: the timer interrupt, or something the running thread does. */
  datatype Op = Tick | Yield | Create | Fork(ok: bool) | Wait(wanted: int, nohang: bool)
              | Continue(p: int) | Stop(p: int) | Exit | Kill(signo: nat)

  datatype Reply = Quiet | Number(n: int) | Waited(w: WaitResult)

  /** Threads, ready queue, running thread and processes at one moment. */
  datatype Moment = Moment(state: seq<State>, queue: seq<int>, current: int, t: Table, g: Trace)

  /** The last thread has exited. */
  predicate Over(a: Moment) { 0 <= a.current < |a.state| && a.state[a.current].Zombie? }

  /** The first in the queue runs, and who ran goes to its end; nothing happens if nobody waits. */
  ghost predicate Turned(a: Moment, b: Moment) {
    if a.queue == [] then b == a
    else && 0 <= a.queue[0] < |a.state| && -1 <= a.current < |a.state|
         && b == a.(state := Switch(a.state, a.current, Ready, a.queue[0]), current := a.queue[0],
                    queue := a.queue[1..] + if a.current != NIL then [a.current] else [])
  }

  /** A new ready process, child of who runs. */
  ghost predicate Born(a: Moment, b: Moment) {
    && b.t.pid == a.t.pid + [a.t.nextPid] && b.t.parent == a.t.parent + [a.current]
    && b.t.zombie == a.t.zombie + [false] && b.t.exitCode == a.t.exitCode + [0]
    && b.g.kids == Joined(a.g.kids, a.current, |a.t.pid|) && b.g.reaped == a.g.reaped
    && b.state == a.state + [Ready] && b.queue == a.queue + [|a.t.pid|] && b.current == a.current
  }

  /** Who ran is a zombie, its children are provided for, and its parent does not sleep. */
  ghost predicate Died(a: Moment, b: Moment) {
    && |a.g.kids| == |a.t.zombie| == |a.t.parent| == |a.state| && 0 <= a.current < |a.state|
    && var me, rest := a.current, a.g.kids[a.current];
       && Settled(a.t.(zombie := a.t.zombie[me := true]), b.t.(waiter := a.t.waiter), rest, Heir(a.t, me))
       && b.g.reaped == a.g.reaped + Buried(rest, a.t.zombie)
       && me < |b.state| && b.state[me] == Zombie
       && var p := a.t.parent[me];
          p != NIL ==> 0 <= p < |b.state| && p < |b.t.waiter| && !b.state[p].Blocked? && b.t.waiter[p] == NIL
  }

  /** One pass of waitpid: the first dead child that matches is collected, or there is none, and the caller is told or
      sleeps. */
  ghost predicate WaitedFor(a: Moment, b: Moment, wanted: int, nohang: bool, w: WaitResult) {
    if a.current == NIL then w.NoChild? && b == a
    else && |a.t.pid| == |a.g.kids| == |a.t.zombie| == |a.t.exitCode| == |a.state| == |b.state|
         && 0 <= a.current < |a.state|
         && var l := a.g.kids[a.current];
            match w
            case NoChild => l == [] && b == a
            case Collected(id, code) =>
              && b == a.(t := b.t, g := b.g)
              && exists k: nat :: && FirstMatch(l, a.t, wanted, k) && id == a.t.pid[l[k]] && code == a.t.exitCode[l[k]]
                                  && b.g.reaped == a.g.reaped + [l[k]] && b.g.kids == a.g.kids[a.current := Cut(l, k)]
            case NotYet => l != [] && nohang && NoMatch(l, a.t, wanted, |l|) && b == a
            case Slept => && l != [] && !nohang && NoMatch(l, a.t, wanted, |l|) && a.current < |a.g.want|
                          && b.g == a.g.(want := a.g.want[a.current := wanted]) && a.current < |a.t.waiter|
                          && b.t == a.t.(waiter := a.t.waiter[a.current := a.current])
                          && (a.queue != [] ==> b.state[a.current].Blocked? && b.current == a.queue[0])
  }

  /** What one operation does and answers. */
  ghost predicate Stepped(op: Op, r: Reply, a: Moment, b: Moment) {
    if op.Tick? then Turned(a, b)
    else if Over(a) then b == a
    else match op
      case Tick => true
      case Yield => Turned(a, b)
      case Create => Born(a, b)
      case Fork(ok) =>
        if a.current == NIL || !ok then r == Number(-1) && b == a.(t := a.t.(nextPid := b.t.nextPid))
        else r == Number(a.t.nextPid) && Born(a, b)
      case Wait(wanted, nohang) => r.Waited? && WaitedFor(a, b, wanted, nohang, r.w)
      case Continue(p) =>
        if !(0 <= p < |a.t.stopped|) || |a.state| != |a.t.stopped| then b == a
        else && b.t == a.t.(stopped := a.t.stopped[p := false]) && b.g == a.g && b.current == a.current
             && b.state == if a.t.stopped[p] && a.state[p].Blocked? then a.state[p := Ready] else a.state
      case Stop(p) =>
        if !(0 <= p < |a.t.stopped|) then b == a else b == a.(t := a.t.(stopped := a.t.stopped[p := true]))
      case Exit => if a.current == NIL then b == a else Died(a, b)
      case Kill(signo) =>
        if a.current == NIL then b == a
        else 0 <= a.current < |a.t.exitCode|
             && Died(a.(t := a.t.(exitCode := a.t.exitCode[a.current := 128 + signo])), b)
  }

  class ProcessTable {
    const sched: ReadyQueue
    var t: Table
    ghost var g: Trace

    ghost predicate Valid()
      reads this, sched
    {
      sched.Valid() && Sound(sched.state, t, g)
    }

    ghost function Now(): Moment
      reads this, sched
    {
      Moment(sched.state, sched.queue, sched.current, t, g)
    }

    /** The dead stay dead and keep their exit codes, the reaped stay reaped in order. */
    twostate predicate Since()
      reads this, sched
    {
      && sched.Later() && old(g.reaped) <= g.reaped
      && |old(sched.state)| <= |sched.state| && |old(t.exitCode)| == |old(sched.state)| && |t.exitCode| == |sched.state|
      && forall c {:trigger sched.state[c]} | 0 <= c < |old(sched.state)| && old(sched.state)[c].Zombie? ::
           sched.state[c].Zombie? && t.exitCode[c] == old(t.exitCode)[c]
    }

    constructor ()
      ensures Valid() && fresh(sched) && t.pid == [] && t.nextPid == 1
    {
      sched := new ReadyQueue();
      t := Table([], [], [], [], [], [], [], [], [], NIL, 1);
      g := Trace([], [], [], [], []);
    }

    /** A new process, child of `p` if there is one. */
    method Spawn(p: int) returns (c: int)
      requires Valid() && !sched.Halted() && (p == NIL || p == sched.current)
      modifies this, sched
      ensures Valid() && sched.Later()
      ensures c == |old(t.pid)| && t.pid == old(t.pid) + [old(t.nextPid)]
      ensures t.parent == old(t.parent) + [p] && g.kids == Joined(old(g.kids), p, c)
      ensures t.zombie == old(t.zombie) + [false] && t.exitCode == old(t.exitCode) + [0]
      ensures sched.queue == old(sched.queue) + [c] && sched.current == old(sched.current)
      ensures sched.state == old(sched.state) + [Ready]
      ensures g.reaped == old(g.reaped) && g.codes == old(g.codes)
    {
      hide Sound, Kin, Listed, Dead, Patient, Ledger, Cared, Joined;
      c := |t.pid|;
      Lengths(sched.state, t, g);
      Child(sched.state, t, g, p);
      t := t.(pid := t.pid + [t.nextPid], nextPid := t.nextPid + 1, zombie := t.zombie + [false],
              exitCode := t.exitCode + [0], waiter := t.waiter + [NIL], stopped := t.stopped + [false]);
      t := t.(parent := t.parent + [p], sibling := t.sibling + [if p == NIL then NIL else t.first[p]],
              first := if p == NIL then t.first + [NIL] else (t.first + [NIL])[p := c]);
      var thread := sched.NewThread();
      t := t.(listNext := t.listNext + [t.listHead], listHead := c);
      g := g.(kids := Joined(g.kids, p, c), want := g.want + [0], all := [c] + g.all);
    }

    /** The process with that pid, if there is one. */
    method FindByPid(id: nat) returns (p: int)
      requires Listed(t.pid, t.listNext, t.listHead, g.all, t.nextPid) && id != 0
      ensures p == NIL <==> id !in t.pid
      ensures p != NIL ==> 0 <= p < |t.pid| && t.pid[p] == id
    {
      p := t.listHead;
      ghost var i := 0;
      while p != NIL
        invariant 0 <= i <= |g.all| && p == if i < |g.all| then g.all[i] else NIL
        invariant forall j | 0 <= j < i :: t.pid[g.all[j]] != id
        decreases |g.all| - i
      {
        assert t.listNext[g.all[i]] == if i + 1 < |g.all| then g.all[i + 1] else NIL;
        if t.pid[p] == id { return; }
        p := t.listNext[p];
        i := i + 1;
      }
    }

    /** Unlinks a process from the process list. */
    method ListRemove(target: int, ghost k: nat)
      requires Chain(t.listNext, t.listHead, g.all) && k < |g.all| && g.all[k] == target
      modifies this`t
      ensures t == old(t).(listNext := t.listNext, listHead := t.listHead)
      ensures |t.listNext| == |old(t.listNext)| && Chain(t.listNext, t.listHead, Cut(g.all, k))
    {
      var prev, cur := NIL, t.listHead;
      ghost var i := 0;
      while cur != NIL
        invariant 0 <= i <= k && cur == g.all[i] && prev == if i == 0 then NIL else g.all[i - 1]
        invariant t == old(t)
        decreases |g.all| - i
      {
        assert t.listNext[g.all[i]] == if i + 1 < |g.all| then g.all[i + 1] else NIL;
        if cur == target {
          ChainUnlink(t.listNext, t.listHead, g.all, k);
          if prev == NIL {
            t := t.(listHead := t.listNext[target]);
          } else {
            t := t.(listNext := t.listNext[prev := t.listNext[target]]);
          }
          t := t.(listNext := t.listNext[target := NIL]);
          return;
        }
        prev, cur := cur, t.listNext[cur];
        i := i + 1;
      }
    }

    /** Takes a process out of the process list and clears its pid. */
    method Reap(c: int)
      requires Listed(t.pid, t.listNext, t.listHead, g.all, t.nextPid) && 0 <= c < |t.pid| && t.pid[c] != 0
      requires |t.zombie| == |t.pid| && |t.exitCode| == |t.pid|
      modifies this
      ensures t == old(t).(pid := old(t.pid)[c := 0], zombie := old(t.zombie)[c := false],
                           listNext := t.listNext, listHead := t.listHead)
      ensures g == old(g).(all := g.all, reaped := old(g.reaped) + [c], codes := old(g.codes) + [t.exitCode[c]])
      ensures Listed(t.pid, t.listNext, t.listHead, g.all, t.nextPid)
    {
      assert c in g.all;
      ghost var k :| 0 <= k < |g.all| && g.all[k] == c;
      ListRemove(c, k);
      Unlist(t.pid, old(t.listNext), old(t.listHead), g.all, t.nextPid, t.listNext, t.listHead, k);
      t := t.(pid := t.pid[c := 0], zombie := t.zombie[c := false]);
      g := g.(all := Cut(g.all, k), reaped := g.reaped + [c], codes := g.codes + [t.exitCode[c]]);
    }

    /** One orphan: a dead one is reaped, a living one goes to `h` or to nobody. */
    method Settle(child: int, h: int, d: int, ghost rest: seq<int>, ghost x: int)
      requires Between(sched.state, t, g, d, rest, x) && 0 <= d < |t.pid| && rest != [] && child == rest[0]
      requires Chain(t.sibling, child, rest) && (h != NIL ==> 0 <= h < |t.pid| && t.pid[h] == 1)
      modifies this
      ensures Between(sched.state, t, g, d, rest[1..], x)
      ensures 0 <= child < |old(t.sibling)| == |t.sibling| && |t.pid| == |old(t.pid)| && child < |old(t.zombie)|
      ensures Chain(t.sibling, old(t.sibling)[child], rest[1..])
      ensures Settled(old(t), t, [child], if h != NIL && h != d then h else NIL)
      ensures g.reaped == old(g.reaped) + (if old(t.zombie)[child] then [child] else [])
      ensures h != NIL ==> h < |t.pid| && t.pid[h] == 1
    {
      hide Kin, Listed, Dead, Patient, Ledger, Cared, Orphans, Chain, Between;
      BetweenLengths(sched.state, t, g, d, rest, x);
      OrphanFacts(sched.state, t, g, d, rest, x);
      assert Distinct(rest) by { ChainDistinct(t.sibling, child, rest); }
      assert child in rest;
      if h != NIL { InitFirst(t.pid, t.listNext, t.listHead, g.all, t.nextPid, h); }
      if t.zombie[child] {
        Reap(child);
        BuryStep(sched.state, old(t), old(g), d, rest, x, t, g.all);
      } else if h != NIL && h != d {
        t := t.(parent := t.parent[child := h], sibling := t.sibling[child := t.first[h]], first :=
            t.first[h := child]);
        g := g.(kids := g.kids[h := [child] + g.kids[h]]);
        AdoptStep(sched.state, old(t), old(g), d, rest, x, h, t, g.kids);
      } else {
        t := t.(parent := t.parent[child := NIL], sibling := t.sibling[child := NIL]);
        AdoptStep(sched.state, old(t), old(g), d, rest, x, NIL, t, g.kids);
      }
      RestLinks(old(t.sibling), t.sibling, child, rest);
    }

    /** The children of the dying process `d`: dead ones are reaped, living ones go to init or to nobody. */
    method Reparent(d: int, ghost rest: seq<int>, ghost x: int)
      requires Between(sched.state, t, g, d, rest, x) && 0 <= d < |t.pid|
      requires |t.first| == |t.pid| && Chain(t.sibling, t.first[d], rest)
      modifies this
      ensures Between(sched.state, t, g, NIL, [], x)
      ensures Settled(old(t), t, rest, Heir(old(t), d))
      ensures g.reaped == old(g.reaped) + Buried(rest, old(t.zombie))
    {
      hide Kin, Listed, Dead, Patient, Ledger, Cared, Orphans, Chain, Heir, Between, Settled, Buried;
      BetweenLengths(sched.state, t, g, d, rest, x);
      SettleNone(t, Heir(t, d));
      assert Buried(rest[..0], t.zombie) == [] by { BuriedNone(t.zombie); }
      OrphanFacts(sched.state, t, g, d, rest, x);
      ChainDistinct(t.sibling, t.first[d], rest);
      var h := FindByPid(1);
      HeirIs(t, g.all, h, d);
      var child := t.first[d];
      ghost var i := 0;
      assert rest[..0] == [] && rest[0..] == rest;
      while child != NIL
        invariant 0 <= i <= |rest| && child == if i < |rest| then rest[i] else NIL
        invariant |t.first| == |t.pid| == |old(t.pid)| && (h != NIL ==> t.pid[h] == 1)
        invariant Between(sched.state, t, g, d, rest[i..], x)
        invariant Chain(t.sibling, child, rest[i..])
        invariant Settled(old(t), t, rest[..i], Heir(old(t), d))
        invariant g.reaped == old(g.reaped) + Buried(rest[..i], old(t.zombie))
        decreases |rest| - i
      {
        ghost var was := t;
        SettledLengths(old(t), t, rest[..i], Heir(old(t), d));
        BetweenLengths(sched.state, t, g, d, rest[i..], x);
        assert child in rest && child !in rest[..i];
        var nextSib := t.sibling[child];
        Settle(child, h, d, rest[i..], x);
        assert rest[i..][1..] == rest[i + 1..] && rest[..i + 1] == rest[..i] + [child];
        SettleMore(old(t), was, t, rest[..i], child, Heir(old(t), d));
        BuriedMore(rest[..i], child, old(t.zombie));
        BetweenLengths(sched.state, t, g, d, rest[i + 1..], x);
        ChainDistinct(t.sibling, nextSib, rest[i + 1..]);
        child := nextSib;
        i := i + 1;
      }
      assert forall j | 0 <= j < |rest| :: rest[j] in rest;
      AllVisited(rest, i, child);
      assert rest[..i] == rest && rest[i..] == [];
      NoOrphans(sched.state, t, g, d, x);
      SettledFirst(old(t), t, rest, Heir(old(t), d), t.first[d := NIL]);
      t := t.(first := t.first[d := NIL]);
    }

    /** Who waits for a child of `p` is woken. */
    method Wake(p: int)
      requires sched.Core() && Between(sched.state, t, g, NIL, [], p) && -1 <= p < |sched.state| && p != sched.current
      modifies this, sched
      ensures sched.Core() && sched.Later() && Sound(sched.state, t, g) && sched.current == old(sched.current)
      ensures t == old(t).(waiter := t.waiter) && g == old(g)
      ensures |sched.state| == |old(sched.state)|
      ensures sched.state == if p != NIL && old(sched.state)[p].Blocked? then old(sched.state)[p := Ready]
              else old(sched.state)
      ensures p != NIL ==> p < |t.waiter| && t.waiter[p] == NIL
    {
      hide Kin, Listed, Dead, Patient, Ledger, Cared, Orphans, Chain, Between, Sound, Fifo, Queue;
      BetweenLengths(sched.state, t, g, NIL, [], p);
      WakeStep(sched.state, t, g, p);
      if p != NIL && t.waiter[p] != NIL {
        var w := t.waiter[p];
        t := t.(waiter := t.waiter[p := NIL]);
        if sched.state[w] == Blocked {
          sched.AddThread(w);
        }
      }
    }

    /** The running process becomes a zombie and its children are provided for. */
    method Die(ghost rest: seq<int>)
      requires Valid() && sched.current != NIL && !sched.Halted() && |g.kids| == |sched.state|
               && rest == g.kids[sched.current]
      modifies this, sched`state
      ensures sched.Core() && sched.state == old(sched.state[sched.current := Zombie])
      ensures |old(t.parent)| == |old(t.zombie)| == |sched.state|
      ensures -1 <= old(t.parent[sched.current]) < sched.current
      ensures Between(sched.state, t, g, NIL, [], old(t.parent[sched.current]))
      ensures Settled(old(t.(zombie := t.zombie[sched.current := true])), t, rest, Heir(old(t), sched.current))
      ensures |t.parent| == |sched.state| && t.parent[sched.current] == old(t.parent[sched.current])
      ensures g.reaped == old(g.reaped) + Buried(rest, old(t.zombie))
    {
      hide Kin, Listed, Dead, Patient, Ledger, Cared, Orphans, Chain, Between, Sound, Fifo, Queue;
      var me := sched.current;
      Lengths(sched.state, t, g);
      ghost var x := t.parent[me];
      DieStep(sched.state, t, g, me);
      BuriedSame(rest, t.zombie, me);
      sched.state := sched.state[me := Zombie];
      t := t.(zombie := t.zombie[me := true]);
      g := g.(kids := g.kids[me := []]);
      Reparent(me, rest, x);
      BetweenLengths(sched.state, t, g, NIL, [], x);
    }

    /** The running process exits: its children are provided for, its parent hears of it, another thread runs. */
    method Exit()
      requires Valid() && sched.current != NIL && !sched.Halted()
      modifies this, sched
      ensures Valid() && Since()
      ensures Died(old(Now()), Now())
    {
      hide Kin, Listed, Dead, Patient, Ledger, Cared, Orphans, Chain, Between, Sound, Fifo, Queue;
      var me := sched.current;
      Lengths(sched.state, t, g);
      Die(g.kids[me]);
      ghost var died := t;
      Wake(t.parent[me]);
      ghost var state := sched.state;
      sched.SwitchFromDead();
      Rescheduled(state, sched.state, t, g);
    }

    /** Terminated by a signal: the exit code says which. */
    method Kill(signo: nat)
      requires Valid() && sched.current != NIL && !sched.Halted()
      modifies this, sched
      ensures Valid() && Since()
      ensures var me := old(sched.current);
              me < |old(t.exitCode)| && t.exitCode == old(t.exitCode)[me := 128 + signo] && sched.state[me] == Zombie
              && Died(old(Now()).(t := old(t).(exitCode := old(t.exitCode)[me := 128 + signo])), Now())
    {
      hide Kin, Listed, Dead, Patient, Orphans, Chain, Cared, Fifo, Queue;
      var me := sched.current;
      Lengths(sched.state, t, g);
      CodeStep(sched.state, t, g, me, 128 + signo);
      t := t.(exitCode := t.exitCode[me := 128 + signo]);
      Exit();
    }

    /** One pass of waitpid: collect a dead child that matches, report, or sleep until a child exits and pass again. */
    method WaitPid(wanted: int, nohang: bool) returns (r: WaitResult)
      requires Valid() && !sched.Halted()
      modifies this, sched
      ensures Valid() && Since()
      ensures WaitedFor(old(Now()), Now(), wanted, nohang, r)
      ensures old(sched.current) != NIL ==>
                && |old(g.kids)| == |old(t.pid)| == |old(t.zombie)| == |old(sched.state)|
                && (r.Collected? <==> exists c :: DeadChild(old(t), old(g), old(sched.current), c)
                                                  && (wanted == -1 || old(t.pid)[c] == wanted))
                && (r.Collected? && wanted != -1 ==> r.pid == wanted)
    {
      hide Kin, Listed, Dead, Patient, Ledger, Cared, Orphans, Between, Sound, Fifo, Queue;
      Lengths(sched.state, t, g);
      if sched.current == NIL { return NoChild; }
      var p := sched.current;
      KidsInside(sched.state, t, g, p);
      assert Chain(t.sibling, t.first[p], g.kids[p]) by { KidsChain(sched.state, t, g, p); }
      if t.first[p] == NIL { return NoChild; }
      var prev, child := NIL, t.first[p];
      ghost var l, i := g.kids[p], 0;
      while child != NIL
        invariant 0 <= i <= |l| && child == (if i < |l| then l[i] else NIL) && prev == if i == 0 then NIL else l[i - 1]
        invariant NoMatch(l, t, wanted, i) && unchanged(this) && unchanged(sched)
        decreases |l| - i
      {
        assert t.sibling[l[i]] == if i + 1 < |l| then l[i + 1] else NIL;
        if (wanted == -1 || t.pid[child] == wanted) && t.zombie[child] {
          var code, id := t.exitCode[child], t.pid[child];
          Collect(prev, child, p, i);
          r := Collected(id, code);
          assert FirstMatch(l, old(t), wanted, i);
          assert DeadChild(old(t), old(g), p, child);
          return;
        }
        prev, child := child, t.sibling[child];
        i := i + 1;
      }
      if nohang { return NotYet; }
      Sleep(p, wanted);
      return Slept;
    }

    /** Takes a dead child out of the children list and reaps it. */
    method Collect(prev: int, child: int, p: int, ghost k: nat)
      requires Valid() && 0 <= p < |g.kids| && k < |g.kids[p]| && child == g.kids[p][k]
      requires 0 <= child < |t.zombie| && t.zombie[child] && prev == if k == 0 then NIL else g.kids[p][k - 1]
      modifies this
      ensures Valid() && child < |t.exitCode| && t.exitCode == old(t.exitCode)
      ensures g == old(g).(all := g.all, kids := old(g.kids)[p := Cut(old(g.kids)[p], k)], reaped :=
              old(g.reaped) + [child],
                           codes := old(g.codes) + [t.exitCode[child]])
    {
      hide Kin, Listed, Dead, Patient, Ledger, Cared, Orphans, Between, Sound, Fifo, Queue;
      Lengths(sched.state, t, g);
      CollectStep(sched.state, t, g, p, k);
      if prev != NIL {
        t := t.(sibling := t.sibling[prev := t.sibling[child]]);
      } else {
        t := t.(first := t.first[p := t.sibling[child]]);
      }
      g := g.(kids := g.kids[p := Cut(g.kids[p], k)]);
      ghost var mid, trace := t, g;
      OrphanFacts(sched.state, t, g, NIL, [child], NIL);
      Reap(child);
      BuryStep(sched.state, mid, trace, NIL, [child], NIL, t, g.all);
      assert [child][1..] == [];
      SoundIs(sched.state, t, g);
    }

    /** The running process has nothing to collect and sleeps. */
    method Sleep(p: int, wanted: int)
      requires Valid() && !sched.Halted() && p == sched.current != NIL && |g.kids| == |sched.state| == |t.waiter|
      requires NoMatch(g.kids[p], t, wanted, |g.kids[p]|)
      modifies this, sched
      ensures Valid() && Since()
      ensures p < |old(g.want)|
      ensures t == old(t).(waiter := old(t.waiter)[p := p]) && g == old(g).(want := old(g.want)[p := wanted])
      ensures |sched.state| == |old(sched.state)|
      ensures old(sched.queue) != [] ==> sched.state[p].Blocked? && sched.current == old(sched.queue)[0]
    {
      hide Kin, Listed, Dead, Patient, Ledger, Cared, Orphans, Between, Sound, Fifo, Queue, NoMatch;
      Lengths(sched.state, t, g);
      SleepStep(sched.state, t, g, p, wanted);
      t := t.(waiter := t.waiter[p := p]);
      g := g.(want := g.want[p := wanted]);
      sched.state := sched.state[p := Blocked];
      ghost var state := sched.state;
      sched.BlockCurrent();
      Rescheduled(state, sched.state, t, g);
    }

    method Create() returns (c: int)
      requires Valid() && !sched.Halted()
      modifies this, sched
      ensures Valid() && sched.Later() && c == |old(t.pid)| && t.pid == old(t.pid) + [old(t.nextPid)]
      ensures t.parent == old(t.parent) + [old(sched.current)] && g.kids == Joined(old(g.kids), old(sched.current), c)
      ensures sched.queue == old(sched.queue) + [c] && sched.state == old(sched.state) + [Ready]
      ensures t.exitCode == old(t.exitCode) + [0] && g.reaped == old(g.reaped) && Born(old(Now()), Now())
    {
      c := Spawn(sched.current);
    }

    /** A failure after the pid was taken leaves only a gap in the pids. */
    method Fork(succeeds: bool) returns (rc: int)
      requires Valid() && !sched.Halted()
      modifies this, sched
      ensures Valid() && sched.Later() && g.reaped == old(g.reaped)
      ensures old(sched.current) == NIL || !succeeds ==>
                rc == -1 && t.(nextPid := old(t.nextPid)) == old(t) && g == old(g)
      ensures old(sched.current) == NIL || !succeeds ==> unchanged(sched)
      ensures old(sched.current) != NIL && succeeds ==>
                && rc == old(t.nextPid) && t.pid == old(t.pid) + [rc]
                      && t.parent == old(t.parent) + [old(sched.current)]
                && g.kids == Joined(old(g.kids), old(sched.current), |old(t.pid)|)
                && sched.queue == old(sched.queue) + [|old(t.pid)|] && sched.state == old(sched.state) + [Ready]
                && t.exitCode == old(t.exitCode) + [0] && Born(old(Now()), Now())
    {
      hide Kin, Dead, Patient, Ledger, Cared, Orphans, Fifo, Queue, Joined;
      if sched.current == NIL { return -1; }
      Lengths(sched.state, t, g);
      if !succeeds {
        t := t.(nextPid := t.nextPid + 1);
        return -1;
      }
      rc := t.nextPid;
      var c := Spawn(sched.current);
    }

    /** Continues a stopped process; one that slept in waitpid wakes and looks again. */
    method Continue(p: int)
      requires Valid() && !sched.Halted() && 0 <= p < |t.stopped| == |sched.state|
      modifies this, sched
      ensures Valid() && sched.Later() && g == old(g) && t == old(t).(stopped := old(t.stopped)[p := false])
      ensures sched.current == old(sched.current)
      ensures sched.state == if old(t.stopped)[p] && old(sched.state)[p].Blocked? then old(sched.state)[p := Ready]
              else old(sched.state)
    {
      hide Kin, Listed, Dead, Patient, Ledger, Cared, Orphans, Fifo, Queue;
      if !t.stopped[p] { return; }
      t := t.(stopped := t.stopped[p := false]);
      if sched.state[p] == Blocked {
        Rescheduled(sched.state, sched.state[p := Ready], t, g);
        sched.AddThread(p);
      }
    }

    /** One operation; those that need a running thread do nothing when there is none. */
    method Perform(op: Op) returns (r: Reply)
      requires Valid()
      modifies this, sched
      ensures Valid() && Since() && Stepped(op, r, old(Now()), Now())
    {
      hide Sound, Fifo, Queue, Settled;
      Lengths(sched.state, t, g);
      var halted := sched.current != NIL && sched.state[sched.current] == Zombie;
      r := Quiet;
      if op.Tick? {
        sched.Tick();
        Rescheduled(old(sched.state), sched.state, t, g);
      } else if !halted {
        r := Act(op);
      }
      Lengths(sched.state, t, g);
    }

    method Act(op: Op) returns (r: Reply)
      requires Valid() && !sched.Halted() && !op.Tick?
      modifies this, sched
      ensures Valid() && Since() && Stepped(op, r, old(Now()), Now())
    {
      hide Sound, Fifo, Queue, Born, Died, WaitedFor;
      Lengths(sched.state, t, g);
      r := Quiet;
      match op {
        case Yield =>
          sched.Yield();
          Rescheduled(old(sched.state), sched.state, t, g);
        case Create => var c := Create();
        case Fork(ok) =>
          var rc := Fork(ok);
          r := Number(rc);
        case Wait(wanted, nohang) =>
          var w := WaitPid(wanted, nohang);
          r := Waited(w);
        case Continue(p) =>
          if 0 <= p < |t.stopped| { Continue(p); }
        case Stop(p) =>
          if 0 <= p < |t.stopped| {
            StopStep(sched.state, t, g, p);
            t := t.(stopped := t.stopped[p := true]);
          }
        case Exit =>
          if sched.current != NIL { Exit(); }
        case Kill(signo) =>
          if sched.current != NIL { Kill(signo); }
      }
      Lengths(sched.state, t, g);
    }

    /** Any run: every operation does what it should, all of the above is kept, and who stood at position `k` of the
        queue was chosen by the (k + 1)-th dispatch. */
    method Run(ops: seq<Op>) returns (rs: seq<Reply>, ghost moments: seq<Moment>)
      requires Valid()
      modifies this, sched
      ensures Valid() && Since() && |rs| == |ops| && |moments| == |ops| + 1
      ensures moments[0] == old(Now()) && moments[|ops|] == Now()
      ensures forall i | 0 <= i < |ops| :: Stepped(ops[i], rs[i], moments[i], moments[i + 1])
      ensures forall k | 0 <= k < |old(sched.queue)| && |old(sched.dispatched)| + k < |sched.dispatched| ::
                sched.dispatched[|old(sched.dispatched)| + k] == old(sched.queue)[k]
    {
      hide Sound, Stepped;
      Lengths(sched.state, t, g);
      rs, moments := [], [Now()];
      for i := 0 to |ops|
        invariant Valid() && Since() && |rs| == i && |moments| == i + 1
        invariant moments[0] == old(Now()) && moments[i] == Now()
        invariant forall j | 0 <= j < i :: Stepped(ops[j], rs[j], moments[j], moments[j + 1])
      {
        ghost var state := sched.state;
        var r := Perform(ops[i]);
        rs, moments := rs + [r], moments + [Now()];
        assert forall c | 0 <= c < |old(sched.state)| && old(sched.state)[c].Zombie? ::
                 state[c].Zombie? && sched.state[c].Zombie?;
      }
      forall k | 0 <= k < |old(sched.queue)| && |old(sched.dispatched)| + k < |sched.dispatched|
        ensures sched.dispatched[|old(sched.dispatched)| + k] == old(sched.queue)[k]
      {
        PositionRuns(old(sched.enqueued), old(sched.dispatched), old(sched.queue), sched.enqueued, sched.dispatched,
                     sched.queue, k);
      }
    }
  }

  lemma Child(state: seq<State>, t: Table, g: Trace, p: int)
    requires Sound(state, t, g) && (p == NIL || (0 <= p < |state| && state[p].Running?)) && |t.first| == |t.pid|
    ensures var c := |t.pid|;
            Sound(state + [Ready],
                  Table(t.pid + [t.nextPid], t.parent + [p], if p == NIL then t.first + [NIL]
                      else (t.first + [NIL])[p := c],
                        t.sibling + [if p == NIL then NIL else t.first[p]], t.zombie + [false], t.exitCode + [0],
                        t.waiter + [NIL], t.stopped + [false], t.listNext + [t.listHead], c, t.nextPid + 1),
                  g.(kids := Joined(g.kids, p, c), want := g.want + [0], all := [c] + g.all))
  {
    hide Kin, Dead, Patient, Ledger, Cared, Joined;
    assert |state| == |t.pid| by { Lengths(state, t, g); }
    Fresh(state, t, g, t.nextPid, p);
    NewBorn(t.pid, t.parent, t.first, t.sibling, g.kids, t.nextPid, p);
    Enlist(t.pid, t.listNext, t.listHead, g.all, t.nextPid);
  }
}
