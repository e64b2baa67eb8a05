/** The receiving side of the TCP client (section 3.10.7.4 of RFC 9293, in the kernel's reduced form). */
module Tcp {
  import opened Bytes

  const BUFFER: nat := 8192
  const HEADER: nat := 20
  const ISN: nat := 0xC0DE_0000

  datatype State = Closed | SynSent | Established | FinWait | TimeWait

  /** What a packet says, once its header has been taken apart. */
  datatype Segment = Segment(srcPort: nat, dstPort: nat, seqNo: nat, ackNo: nat, fin: bool, syn: bool, rst: bool,
      ack: bool,
                             payload: seq<byte>)

  function Be16(b: seq<byte>, at: nat): nat
    requires at + 2 <= |b|
  {
    b[at] as int * 256 + b[at + 1] as int
  }

  function Be32(b: seq<byte>, at: nat): (n: nat)
    requires at + 4 <= |b|
    ensures n < TWO32
  {
    Be16(b, at) * 0x1_0000 + Be16(b, at + 2)
  }

  predicate Flag(flags: byte, bit: nat)
    requires bit > 0
  {
    flags / bit % 2 == 1
  }

  /** The header length is in the upper half of byte 12, in words; the payload is what follows, if anything. */
  function Dissect(nb: seq<byte>): (s: Segment)
    requires |nb| >= HEADER
    ensures s.seqNo < TWO32
  {
    var hdr := nb[12] / 16 * 4;
    var f := nb[13];
    Segment(Be16(nb, 0), Be16(nb, 2), Be32(nb, 4), Be32(nb, 8), Flag(f, 1), Flag(f, 2), Flag(f, 4), Flag(f, 16),
            if |nb| > hdr then nb[hdr..] else [])
  }

  function PutBe16(v: nat): seq<byte>
    requires v < 0x1_0000
  {
    [(v / 256) as byte, (v % 256) as byte]
  }

  function PutBe32(v: nat): seq<byte>
    requires v < TWO32
  {
    PutBe16(v / 0x1_0000) + PutBe16(v % 0x1_0000)
  }

  function Bit(b: bool, weight: nat): nat { if b then weight else 0 }

  predicate Sendable(s: Segment) {
    s.srcPort < 0x1_0000 && s.dstPort < 0x1_0000 && s.seqNo < TWO32 && s.ackNo < TWO32
  }

  /** A packet that says `s`: twenty bytes of header with FIN, SYN, RST and ACK at weights 1, 2, 4 and 16 of byte 13,
      options, and the payload. The reserved bits, PSH and what is above ACK, and the window, checksum and urgent fields
      may be anything. */
  function Build(s: Segment, reserved: nat, psh: bool, above: nat, tail: seq<byte>, options: seq<byte>): (nb: seq<byte>)
    requires Sendable(s) && reserved < 16 && above < 8 && |tail| == 6 && |options| % 4 == 0 && |options| <= 40
    ensures |nb| == HEADER + |options| + |s.payload|
  {
    var flags := Bit(s.fin, 1) + Bit(s.syn, 2) + Bit(s.rst, 4) + Bit(psh, 8) + Bit(s.ack, 16) + 32 * above;
    PutBe16(s.srcPort) + PutBe16(s.dstPort) + PutBe32(s.seqNo) + PutBe32(s.ackNo)
    + [((5 + |options| / 4) * 16 + reserved) as byte, flags as byte] + tail + options + s.payload
  }

  /** Whatever the header length and the other fields, the receiver reads what the sender wrote. */
  lemma DissectBuild(s: Segment, reserved: nat, psh: bool, above: nat, tail: seq<byte>, options: seq<byte>)
    requires Sendable(s) && reserved < 16 && above < 8 && |tail| == 6 && |options| % 4 == 0 && |options| <= 40
    ensures Dissect(Build(s, reserved, psh, above, tail, options)) == s
  {
    hide Be16, Be32, PutBe16, PutBe32, Flag, Bit, Build;
    var nb := Build(s, reserved, psh, above, tail, options);
    var flags := Bit(s.fin, 1) + Bit(s.syn, 2) + Bit(s.rst, 4) + Bit(psh, 8) + Bit(s.ack, 16) + 32 * above;
    FlagBits(s.fin, s.syn, s.rst, psh, s.ack, above);
    BuildParts(s, reserved, psh, above, tail, options);
    Ports(s.srcPort, nb, 0);
    Ports(s.dstPort, nb, 2);
    Words(s.seqNo, nb, 4);
    Words(s.ackNo, nb, 8);
    HeaderLength(|options|, reserved);
  }

  /** Where the parts of a packet lie. */
  lemma BuildParts(s: Segment, reserved: nat, psh: bool, above: nat, tail: seq<byte>, options: seq<byte>)
    requires Sendable(s) && reserved < 16 && above < 8 && |tail| == 6 && |options| % 4 == 0 && |options| <= 40
    ensures var nb := Build(s, reserved, psh, above, tail, options);
            && nb[0..2] == PutBe16(s.srcPort) && nb[2..4] == PutBe16(s.dstPort)
            && nb[4..8] == PutBe32(s.seqNo) && nb[8..12] == PutBe32(s.ackNo)
            && nb[12] == (5 + |options| / 4) * 16 + reserved
            && nb[13] == Bit(s.fin, 1) + Bit(s.syn, 2) + Bit(s.rst, 4) + Bit(psh, 8) + Bit(s.ack, 16) + 32 * above
            && nb[HEADER + |options|..] == s.payload
  {
    hide Bit;
  }

  lemma HeaderLength(options: nat, reserved: nat)
    requires options % 4 == 0 && reserved < 16
    ensures ((5 + options / 4) * 16 + reserved) / 16 * 4 == HEADER + options
  {
  }

  lemma Ports(v: nat, nb: seq<byte>, at: nat)
    requires v < 0x1_0000 && at + 2 <= |nb| && nb[at..at + 2] == PutBe16(v)
    ensures Be16(nb, at) == v
  {
    assert nb[at] == nb[at..at + 2][0] && nb[at + 1] == nb[at..at + 2][1];
  }

  lemma Words(v: nat, nb: seq<byte>, at: nat)
    requires v < TWO32 && at + 4 <= |nb| && nb[at..at + 4] == PutBe32(v)
    ensures Be32(nb, at) == v
  {
    var w := nb[at..at + 4];
    assert nb[at..at + 2] == w[..2] == PutBe16(v / 0x1_0000) && nb[at + 2..at + 4] == w[2..] == PutBe16(v % 0x1_0000);
    Ports(v / 0x1_0000, nb, at);
    Ports(v % 0x1_0000, nb, at + 2);
  }

  lemma FlagBits(fin: bool, syn: bool, rst: bool, psh: bool, ack: bool, above: nat)
    requires above < 8
    ensures var f := (Bit(fin, 1) + Bit(syn, 2) + Bit(rst, 4) + Bit(psh, 8) + Bit(ack, 16) + 32 * above) as byte;
            Flag(f, 1) == fin && Flag(f, 2) == syn && Flag(f, 4) == rst && Flag(f, 16) == ack
  {
    hide Bit;
    BitTimes(fin, 1);
    BitTimes(syn, 2);
    BitTimes(rst, 4);
    BitTimes(psh, 8);
    BitTimes(ack, 16);
    Digits(Bit(fin, 1), Bit(syn, 1), Bit(rst, 1), Bit(psh, 1), Bit(ack, 1), above);
  }

  lemma BitTimes(b: bool, w: nat)
    ensures Bit(b, w) == w * Bit(b, 1) && Bit(b, 1) <= 1 && (b <==> Bit(b, 1) == 1)
  {
  }

  lemma Digits(a: nat, b: nat, c: nat, d: nat, e: nat, above: nat)
    requires a <= 1 && b <= 1 && c <= 1 && d <= 1 && e <= 1
    ensures var f := a + 2 * b + 4 * c + 8 * d + 16 * e + 32 * above;
            f % 2 == a && f / 2 % 2 == b && f / 4 % 2 == c && f / 16 % 2 == e
  {
    var f4 := e + 2 * above;
    var f3 := d + 2 * f4;
    var f2 := c + 2 * f3;
    var f1 := b + 2 * f2;
    Halve(a, f1);
    Halve(b, f2);
    Halve(c, f3);
    Halve(d, f4);
    Halve(e, above);
    Quarter(a + 2 * f1);
  }

  lemma Halve(a: nat, rest: nat)
    requires a <= 1
    ensures (a + 2 * rest) / 2 == rest && (a + 2 * rest) % 2 == a
  {
  }

  lemma Quarter(f: nat)
    ensures f / 4 == f / 2 / 2 && f / 16 == f / 2 / 2 / 2 / 2
  {
  }

  /** The sequence number of byte `n` of a stream whose SYN had number `irs`. */
  function SeqOf(irs: nat, n: nat): nat { (irs + 1 + n) % TWO32 }

  /** From the peer: the SYN, or some stretch of its stream's bytes, in or out of place. A segment without bytes, an
      acknowledgement or a FIN, may have any number. */
  ghost predicate Genuine(s: Segment, irs: nat, stream: seq<byte>) {
    if s.syn then s.seqNo == irs && s.payload == []
    else s.payload == [] || exists off: nat :: CutAt(s, irs, stream, off)
  }

  ghost predicate CutAt(s: Segment, irs: nat, stream: seq<byte>, off: nat) {
    && s.seqNo == SeqOf(irs, off) && off + |s.payload| <= |stream|
    && s.payload == stream[off..off + |s.payload|]
  }

  /** Numbers tell the places of a stream apart exactly while the stream is shorter than 2^32 bytes. */
  lemma PlacesIff(irs: nat, len: nat)
    ensures (forall m, n | 0 <= m <= len && 0 <= n <= len :: SeqOf(irs, m) == SeqOf(irs, n) ==> m == n) <==> len < TWO32
  {
    if len < TWO32 {
      forall m, n | 0 <= m <= len && 0 <= n <= len && SeqOf(irs, m) == SeqOf(irs, n)
        ensures m == n
      {
        SamePlace(irs + 1, m, n);
      }
    } else {
      assert SeqOf(irs, 0) == SeqOf(irs, TWO32);
    }
  }

  lemma SamePlace(a: nat, m: nat, n: nat)
    requires m < TWO32 && n < TWO32 && (a + m) % TWO32 == (a + n) % TWO32
    ensures m == n
  {
  }

  function Min(a: nat, b: nat): nat { if a < b then a else b }

  datatype Event = Packet(nb: seq<byte>) | CloseCall

  class Connection {
    var state: State
    const localPort: nat
    const remotePort: nat
    var rcvNext: nat
    var sndNext: nat
    var recvBuf: seq<byte>
    var peerFin: bool
    /** How much of the stream has been acknowledged. */
    ghost var taken: nat

    ghost predicate Valid(irs: nat, stream: seq<byte>)
      reads this
    {
      && taken <= |stream| && |recvBuf| <= BUFFER && recvBuf == stream[..Min(taken, BUFFER)]
      && (state.Established? || state.FinWait? ==> rcvNext == SeqOf(irs, taken))
      && (state.SynSent? ==> taken == 0)
    }

    constructor (localPort: nat, remotePort: nat)
      ensures this.localPort == localPort && this.remotePort == remotePort && state == SynSent && recvBuf == []
      ensures forall irs: nat, stream :: Valid(irs, stream)
    {
      this.localPort, this.remotePort := localPort, remotePort;
      state, rcvNext, sndNext, recvBuf, peerFin := SynSent, 0, (ISN + 1) % TWO32, [], false;
      taken := 0;
    }

    /** A packet arrives. */
    method Receive(nb: seq<byte>, ghost irs: nat, ghost stream: seq<byte>)
      requires irs < TWO32 && |stream| < TWO32 && Valid(irs, stream)
      requires |nb| >= HEADER && Ours(Dissect(nb)) && !Dissect(nb).rst ==> Genuine(Dissect(nb), irs, stream)
      modifies this
      ensures Valid(irs, stream) && old(recvBuf) <= recvBuf && old(taken) <= taken
      ensures |nb| < HEADER || !Ours(Dissect(nb)) ==> unchanged(this)
      ensures |nb| >= HEADER && Ours(Dissect(nb)) ==> Moved(Dissect(nb))
      ensures |nb| >= 20 && old(state).Established? && nb[0] as int * 256 + nb[1] as int == remotePort
              && nb[2] as int * 256 + nb[3] as int == localPort ==>
                (state.Established? <==> nb[13] as int % 2 == 0 && nb[13] as int / 4 % 2 == 0)
      ensures |nb| >= HEADER && Deliverable(Dissect(nb)) && (old(state).Established? || old(state).FinWait?) ==>
                var s := Dissect(nb);
                taken == if CutAt(s, irs, stream, old(taken)) then old(taken) + |s.payload| else old(taken)
    {
      if |nb| < HEADER { return; }
      var s := Dissect(nb);
      if s.dstPort != localPort || s.srcPort != remotePort { return; }
      if s.rst {
        state := Closed;
        return;
      }
      match state {
        case SynSent =>
          if s.syn && s.ack {
            if s.ackNo != sndNext { return; }
            rcvNext := (s.seqNo + 1) % TWO32;
            state := Established;
          }
        case Established => Data(s, irs, stream);
        case FinWait => Data(s, irs, stream);
        case _ =>
      }
    }

    predicate Ours(s: Segment) { s.dstPort == localPort && s.srcPort == remotePort }

    predicate Deliverable(s: Segment) { Ours(s) && !s.rst && !s.syn }

    /** How a packet moves the connection: a reset closes it, the answer to our SYN opens it, a FIN ends reception. */
    twostate predicate Moved(s: Segment)
      reads this
    {
      if s.rst then state == Closed && unchanged(`rcvNext, `sndNext, `recvBuf, `peerFin)
      else match old(state)
           case SynSent =>
             if s.syn && s.ack && s.ackNo == old(sndNext)
             then state == Established && rcvNext == (s.seqNo + 1) % TWO32 && unchanged(`sndNext, `recvBuf, `peerFin)
             else unchanged(this)
           case Closed => unchanged(this)
           case TimeWait => unchanged(this)
           case _ =>
             if s.fin then state == TimeWait && peerFin && sndNext == (old(sndNext) + 1) % TWO32
             else state == old(state) && peerFin == old(peerFin) && sndNext == old(sndNext)
    }

    /** Copies what fits. */
    method Append(payload: seq<byte>)
      requires |recvBuf| <= BUFFER
      modifies this`recvBuf
      ensures recvBuf == old(recvBuf) + payload[..Fit(|old(recvBuf)|, |payload|)]
    {
      var space := BUFFER - |recvBuf|;
      var copy := if |payload| > space then space else |payload|;
      for i := 0 to copy
        invariant recvBuf == old(recvBuf) + payload[..i]
      {
        recvBuf := recvBuf + [payload[i]];
      }
    }

    method Data(s: Segment, ghost irs: nat, ghost stream: seq<byte>)
      requires irs < TWO32 && |stream| < TWO32 && Valid(irs, stream) && (state.Established? || state.FinWait?)
      requires Genuine(s, irs, stream)
      modifies this
      ensures Valid(irs, stream) && old(recvBuf) <= recvBuf
      ensures if s.fin then state == TimeWait && peerFin && sndNext == (old(sndNext) + 1) % TWO32
              else state == old(state) && peerFin == old(peerFin) && sndNext == old(sndNext)
      ensures taken == if !s.syn && CutAt(s, irs, stream, old(taken)) then old(taken) + |s.payload| else old(taken)
    {
      hide SeqOf, Min;
      if |s.payload| > 0 && s.seqNo == rcvNext {
        ghost var off: nat :| CutAt(s, irs, stream, off);
        assert off == taken by { PlacesIff(irs, |stream|); }
        PrefixGrows(stream, taken, s.payload);
        Append(s.payload);
        rcvNext := (rcvNext + |s.payload|) % TWO32;
        taken := taken + |s.payload|;
        Advance(irs, old(taken), |s.payload|);
      } else {
        assert !CutAt(s, irs, stream, taken) || s.payload == [];
      }
      if s.fin {
        rcvNext := (rcvNext + 1) % TWO32;
        peerFin := true;
        sndNext := (sndNext + 1) % TWO32;
        state := TimeWait;
      }
    }

    /** The application closes its side. */
    method Close()
      modifies this
      ensures rcvNext == old(rcvNext) && recvBuf == old(recvBuf) && taken == old(taken)
      ensures state == if old(state).Established? then FinWait else old(state)
    {
      if state.Established? {
        sndNext := (sndNext + 1) % TWO32;
        state := FinWait;
      }
    }

    /** Packets in any order, repeated or missing: the buffer is always the beginning of the stream. */
    method Run(events: seq<Event>, ghost irs: nat, ghost stream: seq<byte>)
      requires irs < TWO32 && |stream| < TWO32 && Valid(irs, stream)
      requires forall i | 0 <= i < |events| && events[i].Packet? && |events[i].nb| >= HEADER ::
                 var s := Dissect(events[i].nb); Ours(s) && !s.rst ==> Genuine(s, irs, stream)
      modifies this
      ensures Valid(irs, stream) && recvBuf <= stream && |recvBuf| <= BUFFER
      ensures old(recvBuf) <= recvBuf
    {
      hide Dissect;
      for i := 0 to |events|
        invariant Valid(irs, stream) && old(recvBuf) <= recvBuf
      {
        match events[i] {
          case Packet(nb) => Receive(nb, irs, stream);
          case CloseCall => Close();
        }
      }
    }
  }

  /** A segment from 2^32 bytes further on is taken for the next one: the buffer stays a prefix of the stream if and
      only if the stream repeats itself there. */
  method LateSegment(c: Connection, nb: seq<byte>, ghost irs: nat, ghost stream: seq<byte>)
    requires irs < TWO32 && c.Valid(irs, stream) && c.state.Established?
    requires |nb| >= HEADER && c.Deliverable(Dissect(nb)) && c.taken + |Dissect(nb).payload| < TWO32
    requires CutAt(Dissect(nb), irs, stream, c.taken + TWO32)
    modifies c
    ensures c.taken == old(c.taken) + |Dissect(nb).payload|
    ensures |c.recvBuf| == Min(c.taken, BUFFER) <= |stream|
    ensures c.recvBuf <= stream <==> forall i | old(c.taken) <= i < |c.recvBuf| :: stream[i] == stream[i + TWO32]
  {
    hide Dissect;
    ghost var s := Dissect(nb);
    ghost var n, other := c.taken, stream[..c.taken] + s.payload;
    TakenForNext(s, irs, stream, n);
    PrefixIff(stream, n, s.payload, Min(n + |s.payload|, BUFFER));
    hide CutAt, SeqOf;
    assert other[..Min(n, BUFFER)] == stream[..Min(n, BUFFER)];
    c.Receive(nb, irs, other);
  }

  lemma TakenForNext(s: Segment, irs: nat, stream: seq<byte>, n: nat)
    requires CutAt(s, irs, stream, n + TWO32)
    ensures CutAt(s, irs, stream[..n] + s.payload, n) && n + TWO32 + |s.payload| <= |stream|
    ensures s.payload == stream[n + TWO32..n + TWO32 + |s.payload|]
  {
  }

  lemma PrefixIff(stream: seq<byte>, n: nat, payload: seq<byte>, k: nat)
    requires n + TWO32 + |payload| <= |stream| && payload == stream[n + TWO32..n + TWO32 + |payload|]
    requires k <= n + |payload|
    ensures (stream[..n] + payload)[..k] <= stream <==> forall i | n <= i < k :: stream[i] == stream[i + TWO32]
  {
    var buf := (stream[..n] + payload)[..k];
    assert forall i | n <= i < k :: buf[i] == stream[i + TWO32];
    assert buf <= stream <==> forall i | 0 <= i < k :: buf[i] == stream[i];
  }

  lemma Advance(irs: nat, n: nat, k: nat)
    ensures (SeqOf(irs, n) + k) % TWO32 == SeqOf(irs, n + k)
  {
  }

  /** How much of `n` more bytes fits behind `len`. */
  function Fit(len: nat, n: nat): (k: nat)
    requires len <= BUFFER
    ensures k <= n
  {
    if n > BUFFER - len then BUFFER - len else n
  }

  lemma PrefixGrows(stream: seq<byte>, n: nat, payload: seq<byte>)
    requires n + |payload| <= |stream| && payload == stream[n..n + |payload|]
    ensures Min(n, BUFFER) <= n && Min(n, BUFFER) <= BUFFER
    ensures Min(n + |payload|, BUFFER) <= n + |payload|
    ensures stream[..Min(n, BUFFER)] + payload[..Fit(Min(n, BUFFER), |payload|)] == stream[..Min(n + |payload|, BUFFER)]
  {
  }
}
