/** The round-robin scheduler: one ready queue, threaded through the threads by index. */
module Scheduler {
  import opened Links

  datatype State = Ready | Running | Blocked | Zombie

  predicate Runnable(s: State) { s.Running? || s.Ready? }

  lemma ChainAppend(next: seq<int>, first: int, l: seq<int>, x: int)
    requires Chain(next, first, l) && 0 <= x < |next| && x !in l
    ensures Chain(if l == [] then next[x := NIL] else next[x := NIL][l[|l| - 1] := x], if l == [] then x else first,
            l + [x])
  {
  }

  /** A queue: a chain that also knows its last element. */
  ghost predicate Queue(next: seq<int>, head: int, tail: int, l: seq<int>) {
    Chain(next, head, l) && tail == if l == [] then NIL else l[|l| - 1]
  }

  /** First come, first served: what was ever enqueued is what was dispatched, then what is still waiting. */
  ghost predicate Fifo(enqueued: seq<int>, dispatched: seq<int>, queue: seq<int>) {
    enqueued == dispatched + queue
  }

  /**
    * The thread at position `k` is the one the (k + 1)-th dispatch from now chooses, and no dispatch before that
    * chooses it, whatever happens in between.
    */
  lemma PositionRuns(enqueued: seq<int>, dispatched: seq<int>, queue: seq<int>, enqueued': seq<int>,
                     dispatched': seq<int>, queue': seq<int>, k: nat)
    requires Fifo(enqueued, dispatched, queue) && Fifo(enqueued', dispatched', queue')
    requires enqueued <= enqueued' && Distinct(queue) && k < |queue| && |dispatched| + k < |dispatched'|
    ensures dispatched'[|dispatched| + k] == queue[k]
    ensures forall d | |dispatched| <= d < |dispatched| + k :: dispatched'[d] != queue[k]
  {
    forall d | |dispatched| <= d <= |dispatched| + k
      ensures dispatched'[d] == queue[d - |dispatched|]
    {
      assert enqueued'[d] == enqueued[d];
    }
  }

  /** Who runs, and who is queued, agree with the threads' states. */
  ghost predicate Agree(state: seq<State>, queue: seq<int>, current: int) {
    && -1 <= current < |state|
    && (forall t {:trigger state[t]} | 0 <= t < |state| :: state[t].Ready? <==> t in queue)
    && (forall t {:trigger state[t]} | 0 <= t < |state| :: state[t].Running? ==> t == current)
  }

  /** The states after a switch away from `from`, which is left in state `s`. */
  function Switch(state: seq<State>, from: int, s: State, to: int): seq<State>
    requires -1 <= from < |state| && 0 <= to < |state|
  {
    (if from == NIL then state else state[from := s])[to := Running]
  }

  lemma SwitchAgrees(state: seq<State>, queue: seq<int>, from: int, s: State)
    requires Agree(state, queue, from) && Distinct(queue) && queue != [] && Inside(queue, |state|)
    requires from != NIL ==> !state[from].Ready? && !s.Running?
    ensures Agree(Switch(state, from, s, queue[0]), if from != NIL && s.Ready? then queue[1..] + [from] else queue[1..],
            queue[0])
  {
  }

  class ReadyQueue {
    var state: seq<State>
    var next: seq<int>
    var head: int
    var tail: int
    var current: int
    ghost var queue: seq<int>
    ghost var enqueued: seq<int>
    ghost var dispatched: seq<int>

    ghost predicate Linked()
      reads this
    {
      |next| == |state| && Queue(next, head, tail, queue) && Fifo(enqueued, dispatched, queue)
    }

    ghost predicate Core()
      reads this
    {
      Linked() && Agree(state, queue, current)
    }

    /** Nothing is left to run: the last thread has exited. */
    ghost predicate Halted()
      reads this
      requires -1 <= current < |state|
    {
      current != NIL && state[current].Zombie? && queue == []
    }

    ghost predicate Valid()
      reads this
    {
      Core() && (current != NIL ==> state[current].Running? || Halted())
    }

    /** Dispatches and queued threads only add up over time. */
    twostate predicate Later()
      reads this
    {
      old(enqueued) <= enqueued && old(dispatched) <= dispatched
    }

    constructor ()
      ensures Valid() && current == NIL && state == [] && queue == []
    {
      state, next, head, tail, current := [], [], NIL, NIL, NIL;
      queue, enqueued, dispatched := [], [], [];
    }

    method Enqueue(t: int)
      requires Linked() && 0 <= t < |state| && t !in queue
      modifies this`next, this`head, this`tail, this`queue, this`enqueued
      ensures Linked() && queue == old(queue) + [t] && enqueued == old(enqueued) + [t]
    {
      ChainAppend(next, head, queue, t);
      next := next[t := NIL];
      if head == NIL {
        head, tail := t, t;
      } else {
        next := next[tail := t];
        tail := t;
      }
      queue, enqueued := queue + [t], enqueued + [t];
    }

    /** The thread that waited longest, or none. */
    method Dequeue() returns (t: int)
      requires Linked()
      modifies this`next, this`head, this`tail, this`queue, this`dispatched
      ensures Linked()
      ensures old(queue) == [] ==> t == NIL && unchanged(this)
      ensures old(queue) != [] ==> t == old(queue)[0] && queue == old(queue)[1..] && dispatched == old(dispatched) + [t]
    {
      t := head;
      if t == NIL { return; }
      ChainPop(next, head, queue);
      head := next[t];
      if head == NIL { tail := NIL; }
      next := next[t := NIL];
      dispatched := dispatched + [t];
      queue := queue[1..];
    }

    method AddThread(t: int)
      requires Core() && 0 <= t < |state| && !state[t].Ready? && t != current
      modifies this`next, this`head, this`tail, this`queue, this`enqueued, this`state
      ensures Core() && queue == old(queue) + [t] && enqueued == old(enqueued) + [t] && state == old(state)[t := Ready]
    {
      state := state[t := Ready];
      Enqueue(t);
    }

    /** A new thread joins the end of the queue. */
    method NewThread() returns (t: int)
      requires Valid() && !Halted()
      modifies this
      ensures Valid() && t == |old(state)| && state == old(state) + [Ready] && current == old(current)
      ensures queue == old(queue) + [t] && enqueued == old(enqueued) + [t] && dispatched == old(dispatched)
    {
      t := |state|;
      state, next := state + [Blocked], next + [NIL];
      assert Chain(next, head, queue) by { ChainGrow(old(next), head, queue); }
      AddThread(t);
    }

    /** A dispatch: the first thread in the queue runs, the one that ran is left in `s`, at the end of the queue if
        ready. */
    twostate predicate Dispatched(s: State)
      reads this
    {
      var back := if old(current) != NIL && s.Ready? then [old(current)] else [];
      && old(queue) != [] && 0 <= old(queue)[0] < |old(state)| && -1 <= old(current) < |old(state)|
      && current == old(queue)[0] && queue == old(queue)[1..] + back
      && dispatched == old(dispatched) + [current] && enqueued == old(enqueued) + back
      && state == Switch(old(state), old(current), s, current)
    }

    method Yield()
      requires Valid() && !Halted()
      modifies this
      ensures Valid() && Later()
      ensures if old(queue) == [] then unchanged(this) else Dispatched(Ready)
    {
      var was := current;
      if queue != [] { SwitchAgrees(state, queue, was, Ready); }
      var t := Dequeue();
      if t == NIL { return; }
      if was != NIL && state[was] == Running {
        state := state[was := Ready];
        Enqueue(was);
      }
      state := state[t := Running];
      current := t;
    }

    /** The timer interrupt: like a yield; an exited last thread stays where it is. */
    method Tick()
      requires Valid()
      modifies this
      ensures Valid() && Later()
      ensures if old(queue) == [] then unchanged(this) else Dispatched(Ready)
    {
      if queue != [] { SwitchAgrees(state, queue, current, Ready); }
      if current == NIL {
        var t := Dequeue();
        if t == NIL { return; }
        current := t;
        state := state[current := Running];
        return;
      }
      var t := Dequeue();
      if t == NIL { return; }
      if Runnable(state[current]) {
        state := state[current := Ready];
        Enqueue(current);
      }
      current := t;
      state := state[current := Running];
    }

    /** The running thread has become Blocked; with nobody else to run it goes on running. */
    method BlockCurrent()
      requires Core() && (current != NIL ==> state[current].Blocked?)
      modifies this
      ensures Valid() && Later()
      ensures if old(current) == NIL then unchanged(this)
              else if old(queue) == [] then state == old(state[current := Running])
                  && unchanged(this`current, this`queue, this`enqueued, this`dispatched)
              else Dispatched(Blocked)
    {
      if current == NIL { return; }
      if queue != [] { SwitchAgrees(state, queue, current, Blocked); }
      var t := Dequeue();
      if t == NIL {
        state := state[current := Running];
        return;
      }
      state := state[t := Running];
      current := t;
    }

    /** The running thread has become a Zombie; with nobody else to run the machine halts. */
    method SwitchFromDead()
      requires Core() && current != NIL && state[current].Zombie?
      modifies this
      ensures Valid() && Later()
      ensures if old(queue) == [] then Halted() && unchanged(this) else Dispatched(Zombie)
    {
      if queue != [] { SwitchAgrees(state, queue, current, Zombie); }
      var t := Dequeue();
      if t == NIL { return; }
      state := state[t := Running];
      current := t;
    }
  }
}
