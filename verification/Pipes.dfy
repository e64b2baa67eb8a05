/** A pipe: a ring of bytes between readers and writers that give up the processor where they would block. */
module Pipes {
  import opened Bytes

  const SIZE: nat := 4096
  const ROOM: nat := SIZE - 1  // one slot stays empty, so that full and empty differ

  // ----- the ring -----

  function Ring(buf: seq<byte>, rd: nat, wr: nat): (r: seq<byte>)
    requires |buf| == SIZE && rd < SIZE && wr < SIZE
    ensures |r| == (wr - rd + SIZE) % SIZE <= ROOM
  {
    if rd <= wr then buf[rd..wr] else buf[rd..] + buf[..wr]
  }

  lemma RingPop(buf: seq<byte>, rd: nat, wr: nat)
    requires |buf| == SIZE && rd < SIZE && wr < SIZE && rd != wr
    ensures Ring(buf, rd, wr)[0] == buf[rd] && Ring(buf, rd, wr)[1..] == Ring(buf, Next1(rd), wr)
  {
  }

  function Next1(i: nat): (j: nat)
    requires i < SIZE
    ensures j == (i + 1) % SIZE
  {
    if i + 1 < SIZE then i + 1 else 0
  }

  /**
    * A byte stored at `wr` joins the end of the stream exactly when the slot behind it, which the writer chose
    * before it went to sleep, is still the next one, and is not where the readers are.
    */
  lemma StoreIff(buf: seq<byte>, rd: nat, wr: nat, next: nat, b: byte)
    requires |buf| == SIZE && rd < SIZE && wr < SIZE && next < SIZE
    ensures Ring(buf[wr := b], rd, next) == Ring(buf, rd, wr) + [b] <==> next == (wr + 1) % SIZE != rd
  {
    var buf' := buf[wr := b];
    if next == (wr + 1) % SIZE && next != rd {
      assert buf'[..wr] == buf[..wr];
      if rd <= wr {
        assert buf'[rd..] == buf[rd..wr] + buf'[wr..];
      }
      assert Ring(buf', rd, next) == Ring(buf, rd, wr) + [b];
    } else {
      assert |Ring(buf', rd, next)| != |Ring(buf, rd, wr)| + 1;
    }
  }

  lemma Empty(rd: nat, wr: nat)
    requires rd < SIZE && wr < SIZE
    ensures rd == wr <==> (wr - rd + SIZE) % SIZE == 0
  {
  }

  lemma Full(rd: nat, wr: nat)
    requires rd < SIZE && wr < SIZE
    ensures (wr + 1) % SIZE == rd <==> (wr - rd + SIZE) % SIZE == ROOM
  {
  }

  // ----- the stream the ring stands for -----

  /** A write call that sleeps after `done` bytes of `src`. */
  datatype Pending = Idle | Asleep(src: seq<byte>, done: nat)

  /** A queue of at most ROOM bytes; all the bytes ever taken in and given out. */
  datatype Stream = Stream(queue: seq<byte>, readers: int, writers: int, pending: Pending, sent: seq<byte>,
                           received: seq<byte>)

  datatype Event = Read(n: nat) | Write(src: seq<byte>) | Resume | CloseRead | CloseWrite

  datatype Reply = Waits | Bytes(data: seq<byte>) | Count(n: int) | Nothing

  function Min(a: nat, b: nat): nat { if a < b then a else b }

  /** A write goes on from byte `done` until its bytes or the room end; without readers it gives up. */
  function Pour(s: Stream, src: seq<byte>, done: nat): (Stream, Reply)
    requires |s.queue| <= ROOM && done <= |src|
  {
    var n := if s.readers <= 0 then 0 else Min(|src| - done, ROOM - |s.queue|);
    var chunk := src[done..done + n];
    var s' := s.(queue := s.queue + chunk, sent := s.sent + chunk);
    if s.readers <= 0 || done + n == |src| then (s'.(pending := Idle), Count(done + n))
    else (s'.(pending := Asleep(src, done + n)), Waits)
  }

  lemma PourWaits(s: Stream, src: seq<byte>, done: nat, done': nat)
    requires |s.queue| <= ROOM && done <= done' < |src| && s.readers > 0 && |s.queue| + done' - done == ROOM
    ensures Pour(s, src, done) == (s.(queue := s.queue + src[done..done'], sent := s.sent + src[done..done'],
                                      pending := Asleep(src, done')), Waits)
  {
  }

  lemma PourEnds(s: Stream, src: seq<byte>, done: nat, done': nat)
    requires |s.queue| <= ROOM && done <= done' <= |src|
    requires if s.readers <= 0 then done' == done else done' == |src| && |s.queue| + done' - done <= ROOM
    ensures Pour(s, src, done) == (s.(queue := s.queue + src[done..done'], sent := s.sent + src[done..done'],
                                      pending := Idle), Count(done'))
  {
  }

  predicate Fits(s: Stream) { |s.queue| <= ROOM && (s.pending.Asleep? ==> s.pending.done < |s.pending.src|) }

  function Next(s: Stream, e: Event): (Stream, Reply)
    requires Fits(s)
  {
    match e
    case Read(n) =>
      if s.queue == [] && s.writers > 0 then (s, Waits)
      else
        var k := Min(n, |s.queue|);
        (s.(queue := s.queue[k..], received := s.received + s.queue[..k]), Bytes(s.queue[..k]))
    case Write(src) =>
      if s.pending.Asleep? then (s, Nothing)
      else if s.readers <= 0 then (s, Count(-1))
      else Pour(s, src, 0)
    case Resume =>
      if s.pending.Asleep? then Pour(s, s.pending.src, s.pending.done) else (s, Nothing)
    case CloseRead => (s.(readers := s.readers - 1), Nothing)
    case CloseWrite => (s.(writers := s.writers - 1), Nothing)
  }

  ghost predicate Conserved(s: Stream) { s.sent == s.received + s.queue }

  /** No byte is lost, made up, doubled or reordered. */
  lemma StepConserves(s: Stream, e: Event)
    requires Fits(s) && Conserved(s)
    ensures Fits(Next(s, e).0) && Conserved(Next(s, e).0)
    ensures s.sent <= Next(s, e).0.sent && s.received <= Next(s, e).0.received
  {
  }

  /** A reader waits exactly while all was read and a writer is left; otherwise it gets the oldest unread bytes, as many
      as it asked for or as there are. */
  lemma ReadTakes(s: Stream, n: nat)
    requires Fits(s) && Conserved(s)
    ensures var (s', r) := Next(s, Read(n));
            && (r == Waits <==> s.received == s.sent && s.writers > 0)
            && (r != Waits ==>
                  var k, unread := |s.received|, |s.sent| - |s.received|;
                  var m := if n <= unread then n else unread;
                  r == Bytes(s.sent[k..k + m]) && s'.received == s.sent[..k + m])
            && s'.sent == s.sent && s'.pending == s.pending && s'.readers == s.readers && s'.writers == s.writers
  {
    Unread(s, 0);
    Unread(s, Min(n, |s.queue|));
  }

  /** The queue is what was taken in and not given out. */
  lemma Unread(s: Stream, m: nat)
    requires Conserved(s) && m <= |s.queue|
    ensures var k := |s.received|;
            && |s.sent| == k + |s.queue| && (s.received == s.sent <==> s.queue == [])
            && s.sent[k..k + m] == s.queue[..m] && s.sent[..k + m] == s.received + s.queue[..m]
  {
  }

  /** A reader that asked for something gets nothing only when all was read and no writer is left. */
  lemma EndOfStream(s: Stream, n: nat)
    requires Fits(s) && Conserved(s) && n > 0
    ensures Next(s, Read(n)).1 == Bytes([]) <==> s.received == s.sent && s.writers <= 0
  {
  }

  function Runs(s: Stream, es: seq<Event>): (Stream, seq<Reply>)
    requires Fits(s)
    decreases |es|
  {
    if es == [] then (s, [])
    else
      var (s', r) := Next(s, es[0]);
      var (s'', rs) := Runs(s', es[1..]);
      (s'', [r] + rs)
  }

  function Given(rs: seq<Reply>): seq<byte> {
    if rs == [] then [] else (if rs[0].Bytes? then rs[0].data else []) + Given(rs[1..])
  }

  /** Over any run, what the readers got, then what is still in the pipe, is what the writers put in. */
  lemma {:induction false} RunConserves(s: Stream, es: seq<Event>)
    requires Fits(s) && Conserved(s)
    ensures var (s', rs) := Runs(s, es);
            && Fits(s') && Conserved(s') && s.sent <= s'.sent
            && s'.received == s.received + Given(rs) && s'.sent == s.received + Given(rs) + s'.queue
    decreases |es|
  {
    if es != [] {
      var (s', r) := Next(s, es[0]);
      StepConserves(s, es[0]);
      RunConserves(s', es[1..]);
      var (s'', rs) := Runs(s', es[1..]);
      assert ([r] + rs)[1..] == rs;
      assert s'.received == s.received + if r.Bytes? then r.data else [];
    }
  }

  // ----- write calls over a run -----

  ghost function After(s: Stream, es: seq<Event>, i: nat): (t: Stream)
    requires Fits(s) && i <= |es|
    ensures Fits(t)
  {
    RunFits(s, es[..i]);
    Runs(s, es[..i]).0
  }

  lemma {:induction false} RunFits(s: Stream, es: seq<Event>)
    requires Fits(s)
    ensures Fits(Runs(s, es).0) && |Runs(s, es).1| == |es|
    decreases |es|
  {
    if es != [] {
      RunFits(Next(s, es[0]).0, es[1..]);
    }
  }

  lemma AfterStep(s: Stream, es: seq<Event>, i: nat)
    requires Fits(s) && i < |es|
    ensures After(s, es, i + 1) == Next(After(s, es, i), es[i]).0
  {
    RunsMore(s, es[..i], es[i]);
    assert es[..i + 1] == es[..i] + [es[i]];
  }

  /** The replies of a run are those of its steps. */
  lemma {:induction false} ReplyAt(s: Stream, es: seq<Event>, j: nat)
    requires Fits(s) && j < |es|
    ensures |Runs(s, es).1| == |es| && Runs(s, es).1[j] == Next(After(s, es, j), es[j]).1
    decreases |es|
  {
    RunFits(s, es);
    if j == 0 {
      assert es[..0] == [];
    } else {
      assert es[..j][1..] == es[1..][..j - 1];
      ReplyAt(Next(s, es[0]).0, es[1..], j - 1);
    }
  }

  /** The call that event `i` begins has not been answered before event `k`. */
  ghost predicate Going(s: Stream, es: seq<Event>, i: nat, k: nat)
    requires Fits(s)
  {
    && i < k <= |es| && es[i].Write? && After(s, es, i).pending.Idle?
    && forall m | i < m <= k :: After(s, es, m).pending.Asleep?
  }

  lemma Begins(s: Stream, src: seq<byte>)
    requires Fits(s) && s.pending.Idle? && Next(s, Event.Write(src)).0.pending.Asleep?
    ensures var t := Next(s, Event.Write(src)).0;
            t.pending.src == src && t.pending.done < |src| && t.sent == s.sent + src[..t.pending.done]
  {
    var t := Next(s, Event.Write(src)).0;
    assert src[0..t.pending.done] == src[..t.pending.done];
  }

  lemma GoesOn(s: Stream, e: Event, before: seq<byte>)
    requires Fits(s) && s.pending.Asleep? && s.sent == before + s.pending.src[..s.pending.done]
    requires Next(s, e).0.pending.Asleep?
    ensures var t := Next(s, e).0;
            && t.pending.src == s.pending.src && t.pending.done < |t.pending.src|
            && t.sent == before + t.pending.src[..t.pending.done]
  {
    var t := Next(s, e).0;
    var src, d, d' := s.pending.src, s.pending.done, t.pending.done;
    if e.Resume? {
      assert src[..d] + src[d..d'] == src[..d'];
    }
  }

  /** Until then exactly its own bytes have joined the stream, in order. */
  lemma {:induction false} CallSoFar(s: Stream, es: seq<Event>, i: nat, k: nat)
    requires Fits(s) && Going(s, es, i, k)
    ensures var t := After(s, es, k);
            && t.pending.Asleep? && t.pending.src == es[i].src && t.pending.done < |es[i].src|
            && t.sent == After(s, es, i).sent + es[i].src[..t.pending.done]
    decreases k
  {
    hide Next, After;
    AfterStep(s, es, k - 1);
    if k == i + 1 {
      Begins(After(s, es, i), es[i].src);
    } else {
      CallSoFar(s, es, i, k - 1);
      GoesOn(After(s, es, k - 1), es[k - 1], After(s, es, i).sent);
    }
  }

  /** Event `j` answers the call that event `i` begins, whatever readers, closings and other calls there are between
      them. The answer is -1 exactly when there was no reader to begin with; otherwise it is the number of bytes that
      joined the stream, they are the first of the call's bytes, and less than all only if the readers have gone. */
  lemma CallAnswers(s: Stream, es: seq<Event>, i: nat, j: nat, n: int)
    requires Fits(s) && i <= j < |es| == |Runs(s, es).1| && es[i].Write? && After(s, es, i).pending.Idle?
    requires if j == i then true else es[j].Resume? && Going(s, es, i, j)
    requires Runs(s, es).1[j] == Count(n)
    ensures n == -1 <==> After(s, es, i).readers <= 0
    ensures n != -1 ==>
              && 0 <= n <= |es[i].src| && (n < |es[i].src| ==> After(s, es, j).readers <= 0)
              && After(s, es, j + 1).sent == After(s, es, i).sent + es[i].src[..n]
    ensures n == -1 ==> j == i && After(s, es, j + 1).sent == After(s, es, i).sent
    ensures After(s, es, j + 1).pending.Idle?
  {
    hide Runs, After;
    AfterStep(s, es, j);
    ReplyAt(s, es, j);
    var src := es[i].src;
    if j == i {
      assert n >= 0 ==> src[0..n] == src[..n];
    } else {
      CallSoFar(s, es, i, j);
      AfterStep(s, es, i);
      var d := After(s, es, j).pending.done;
      assert src[..d] + src[d..n] == src[..n];
    }
  }

  /** A write call sleeps only over a full ring, and only while there are readers; 4095 bytes fill it. */
  lemma SleepsOnlyFull(s: Stream, e: Event)
    requires Fits(s) && (e.Write? || e.Resume?)
    ensures var (s', r) := Next(s, e);
            && |s'.queue| <= 4095
            && (r == Waits ==> |s'.queue| == 4095 && s'.readers > 0 && s'.pending.Asleep?)
            && (r != Waits && s.pending.Idle? ==> s'.pending.Idle?)
  {
  }

  // ----- the code -----

  class Pipe {
    const buf: array<byte>
    var rd: nat
    var wr: nat
    var readers: int
    var writers: int
    ghost var sent: seq<byte>
    ghost var received: seq<byte>

    ghost predicate Valid()
      reads this, buf
    {
      buf.Length == SIZE && rd < SIZE && wr < SIZE && sent == received + Ring(buf[..], rd, wr)
    }

    ghost function Abs(pending: Pending): (s: Stream)
      reads this, buf
      requires Valid()
      ensures Conserved(s) && |s.queue| <= ROOM
    {
      Stream(Ring(buf[..], rd, wr), readers, writers, pending, sent, received)
    }

    constructor ()
      ensures Valid() && fresh(buf) && Abs(Idle) == Stream([], 1, 1, Idle, [], [])
    {
      buf := new byte[SIZE](_ => 0);
      rd, wr, readers, writers := 0, 0, 1, 1;
      sent, received := [], [];
    }

    /** What a reader does each time it gets the processor. */
    method Read(n: nat, ghost pending: Pending) returns (r: Reply)
      requires Valid() && (pending.Asleep? ==> pending.done < |pending.src|)
      modifies this`rd, this`received
      ensures Valid() && (Abs(pending), r) == Next(old(Abs(pending)), Event.Read(n))
    {
      hide Ring;
      assert rd == wr <==> Ring(buf[..], rd, wr) == [] by { Empty(rd, wr); }
      if rd == wr && writers > 0 { return Waits; }
      if rd == wr {
        assert received + [] == received;
        return Bytes([]);
      }
      var avail := (wr - rd + SIZE) % SIZE;
      var nbyte := if n > avail then avail else n;
      var dst := Drain(nbyte);
      return Bytes(dst);
    }

    /** Copies `n` bytes out of the ring. */
    method Drain(n: nat) returns (dst: seq<byte>)
      requires Valid() && n <= |Ring(buf[..], rd, wr)|
      modifies this`rd, this`received
      ensures Valid() && dst == old(Ring(buf[..], rd, wr))[..n] && Ring(buf[..], rd, wr)
              == old(Ring(buf[..], rd, wr))[n..]
      ensures received == old(received) + dst
    {
      hide Ring, Next1;
      var copied := 0;
      dst := [];
      ghost var q := Ring(buf[..], rd, wr);
      while copied < n
        invariant 0 <= copied <= n && rd < SIZE && dst == q[..copied]
        invariant Ring(buf[..], rd, wr) == q[copied..] && received == old(received)
      {
        assert rd != wr by { Empty(rd, wr); }
        RingPop(buf[..], rd, wr);
        assert q[copied..][1..] == q[copied + 1..] && q[..copied + 1] == q[..copied] + [q[copied]];
        dst := dst + [buf[rd % SIZE]];
        copied := copied + 1;
        assert Next1(rd) == (rd + 1) % SIZE;
        rd := (rd + 1) % SIZE;
      }
      received := received + dst;
      assert q[..n] + q[n..] == q;
    }

    /** A write call begins. */
    method Write(src: seq<byte>) returns (r: Reply, next: nat, done: nat)
      requires Valid()
      modifies this, buf
      ensures Valid() && done <= |src|
      ensures (Abs(if r.Waits? then Asleep(src, done) else Idle), r) == Next(old(Abs(Idle)), Event.Write(src))
      ensures r.Waits? ==> next == (wr + 1) % SIZE
    {
      if readers <= 0 { return Count(-1), 0, 0; }
      next, done := (wr + 1) % SIZE, 0;
      if src == [] {
        assert Ring(buf[..], rd, wr) + src[0..0] == Ring(buf[..], rd, wr) && sent + src[0..0] == sent;
        return Count(0), next, 0;
      }
      r, next, done := Burst(src, 0, next);
    }

    /** One byte goes into the slot at `wr`; `next` is the slot behind it. */
    method Store(b: byte, next: nat)
      requires Valid() && next == (wr + 1) % SIZE != rd
      modifies this`wr, this`sent, buf
      ensures Valid() && sent == old(sent) + [b] && wr == next
      ensures Ring(buf[..], rd, wr) == old(Ring(buf[..], rd, wr)) + [b]
    {
      StoreIff(buf[..], rd, wr, next, b);
      buf[wr] := b;
      assert buf[..] == old(buf[..])[wr := b];
      wr := next;
      sent := sent + [b];
    }

    /** A write goes on with byte `done`, for which it had chosen slot `chosen`, until it ends or must sleep. */
    method Burst(src: seq<byte>, done: nat, chosen: nat) returns (r: Reply, next: nat, done': nat)
      requires Valid() && done < |src| && chosen == (wr + 1) % SIZE
      modifies this, buf
      ensures Valid() && done' <= |src|
      ensures (Abs(if r.Waits? then Asleep(src, done') else Idle), r) == Pour(old(Abs(Idle)), src, done)
      ensures r.Waits? ==> next == (wr + 1) % SIZE && done' < |src|
    {
      hide Ring, Pour;
      done', next := done, chosen;
      ghost var q, s := Ring(buf[..], rd, wr), Abs(Idle);
      assert q + src[done..done] == q && sent + src[done..done] == sent;
      while done' < |src|
        invariant done <= done' <= |src| && Valid() && next == (wr + 1) % SIZE
        invariant Ring(buf[..], rd, wr) == q + src[done..done'] && sent == old(sent) + src[done..done']
        invariant rd == old(rd) && readers == old(readers) && writers == old(writers) && received == old(received)
        invariant readers > 0 || done' == done
      {
        assert next == rd <==> |q| + done' - done == ROOM by { Full(rd, wr); }
        if next == rd && readers > 0 {
          PourWaits(s, src, done, done');
          return Waits, next, done';
        }
        if readers <= 0 { break; }
        Store(src[done'], next);
        assert src[done..done' + 1] == src[done..done'] + [src[done']];
        done' := done' + 1;
        next := (wr + 1) % SIZE;
      }
      PourEnds(s, src, done, done');
      return Count(done'), next, done';
    }

    /** Any interleaving of readers, closings and write calls that do not overlap is one of the stream's runs. */
    method Run(es: seq<Event>) returns (rs: seq<Reply>, pending: Pending)
      requires Valid()
      modifies this, buf
      ensures Valid() && (Abs(pending), rs) == Runs(old(Abs(Idle)), es)
    {
      hide Ring, Next;
      pending, rs := Idle, [];
      var next := 0;
      ghost var s0 := Abs(Idle);
      assert es[..0] == [];
      for i := 0 to |es|
        invariant Valid() && Fits(Abs(pending)) && (Abs(pending), rs) == Runs(s0, es[..i])
        invariant pending.Asleep? ==> next == (wr + 1) % SIZE
      {
        ghost var s := Abs(pending);
        var r;
        r, pending, next := Perform(es[i], pending, next);
        RunsMore(s0, es[..i], es[i]);
        assert es[..i + 1] == es[..i] + [es[i]];
        rs := rs + [r];
      }
      assert es[..|es|] == es;
    }

    method Perform(e: Event, pending: Pending, next: nat) returns (r: Reply, pending': Pending, next': nat)
      requires Valid() && Fits(Abs(pending)) && (pending.Asleep? ==> next == (wr + 1) % SIZE)
      modifies this, buf
      ensures Valid() && (Abs(pending'), r) == Next(old(Abs(pending)), e)
      ensures Fits(Abs(pending')) && (pending'.Asleep? ==> next' == (wr + 1) % SIZE)
    {
      hide Ring;
      pending', next' := pending, next;
      match e {
        case Read(n) => r := Read(n, pending);
        case Write(src) =>
          if pending.Asleep? { return Nothing, pending, next; }
          var done;
          r, next', done := Write(src);
          pending' := if r.Waits? then Asleep(src, done) else Idle;
        case Resume =>
          if pending.Idle? { return Nothing, pending, next; }
          var done;
          r, next', done := Burst(pending.src, pending.done, next);
          pending' := if r.Waits? then Asleep(pending.src, done) else Idle;
        case CloseRead => readers := readers - 1; r := Nothing;
        case CloseWrite => writers := writers - 1; r := Nothing;
      }
    }
  }

  lemma {:induction false} RunsMore(s: Stream, es: seq<Event>, e: Event)
    requires Fits(s)
    ensures var (s', rs) := Runs(s, es);
            Fits(s') && Runs(s, es + [e]) == (Next(s', e).0, rs + [Next(s', e).1])
    decreases |es|
  {
    if es == [] {
      assert (es + [e])[1..] == [] && es + [e] == [e];
      assert [Next(s, e).1] + [] == [] + [Next(s, e).1];
    } else {
      var s1 := Next(s, es[0]).0;
      RunsMore(s1, es[1..], e);
      assert (es + [e])[1..] == es[1..] + [e];
      var (s', rs) := Runs(s1, es[1..]);
      assert [Next(s, es[0]).1] + (rs + [Next(s', e).1]) == [Next(s, es[0]).1] + rs + [Next(s', e).1];
    }
  }

  /**
    * Two write calls that fell asleep over the same full ring chose the same slot. Once readers have made room, the
    * byte of the one that wakes second is not in the stream.
    */
  lemma SecondSleeperLosesByte(buf: seq<byte>, rd: nat, wr: nat, rd': nat, a: byte, b: byte)
    requires |buf| == SIZE && rd < SIZE && wr < SIZE && rd' < SIZE && (wr + 1) % SIZE == rd != rd'
    ensures var next := rd;
            var buf1 := buf[wr := a];
            var buf2 := buf1[next := b];
            && Ring(buf1, rd', next) == Ring(buf, rd', wr) + [a]
            && Ring(buf2, rd', next) == Ring(buf, rd', wr) + [a]
  {
    StoreIff(buf, rd', wr, rd, a);
    StaleSlot(buf[wr := a], rd', rd, b);
  }

  lemma StaleSlot(buf: seq<byte>, rd: nat, wr: nat, b: byte)
    requires |buf| == SIZE && rd < SIZE && wr < SIZE
    ensures Ring(buf[wr := b], rd, wr) == Ring(buf, rd, wr)
  {
  }
}
