/** Page-table entries and the copy-on-write memory of several address spaces. */
module Paging {
  const PAGE_SIZE: nat := 4096

  /** A page-table entry, its 64 bits split into the frame number (bits 12 to 51) and the flags the kernel uses. */
  datatype Pte = Pte(frame: nat, present: bool, rw: bool, user: bool, ps: bool, cow: bool, rest: nat)

  const NO_ENTRY := Pte(0, false, false, false, false, false, 0)
}

/** Reference counts per physical frame. */
module Refcount {
  const MAX: nat := 0xFFFF_FFFF

  /** Frames behind the end of the table are not counted; counts do not overflow. */
  function Inc(refs: seq<nat>, f: nat): (r: seq<nat>)
    ensures |r| == |refs|
  {
    if f >= |refs| || refs[f] >= MAX then refs else refs[f := refs[f] + 1]
  }

  function Dec(refs: seq<nat>, f: nat): (r: seq<nat>)
    ensures |r| == |refs|
  {
    if f >= |refs| || refs[f] == 0 then refs else refs[f := refs[f] - 1]
  }

  function Set(refs: seq<nat>, f: nat, n: nat): (r: seq<nat>)
    ensures |r| == |refs|
  {
    if f >= |refs| then refs else refs[f := n]
  }

  function Get(refs: seq<nat>, f: nat): nat {
    if f >= |refs| then 0 else refs[f]
  }

  predicate IsShared(refs: seq<nat>, f: nat) {
    f < |refs| && refs[f] > 1
  }
}

