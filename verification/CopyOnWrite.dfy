/** Lazy copying of address spaces against eager copying. */
module CopyOnWrite {
  import opened Bytes
  import opened Paging
  import opened Refcount

  type Page = seq<byte>

  /** A page of an address space. */
  datatype Slot = Slot(space: nat, page: nat)

  /** The address spaces, the present entries of all of them, frame contents, reference counts, free frames, and the
      frames [kernelLo, kernelHi) of the kernel image, which stay shared and writable. */
  datatype Mem = Mem(spaces: set<nat>, ptes: map<Slot, Pte>, frames: map<nat, Page>, refs: seq<nat>, free: set<nat>,
                     kernelLo: nat, kernelHi: nat)
  {
    predicate IsKernel(f: nat) { kernelLo <= f < kernelHi }

    /** A user page: present and not of the kernel image. */
    predicate Maps(k: Slot) { k in ptes && !IsKernel(ptes[k].frame) }
  }

  // ----- the lazy machine -----

  /** `pick` is the frame the allocator hands out; anything that is not free stands for an exhausted allocator. */
  datatype Event =
    | Idle
    | New(space: nat)
    | Clone(src: nat, dst: nat)
    | CloneFails(src: nat)
    | Store(k: Slot, off: nat, v: byte, pick: nat)
    | Touch(k: Slot, pick: nat)
    | Unmap(k: Slot)

  /** The entry that cloning leaves in both spaces: writable user pages become read-only and copy-on-write. */
  function Protect(m: Mem, e: Pte): Pte {
    if e.rw && !m.IsKernel(e.frame) then e.(rw := false, cow := true) else e
  }

  /** `src` maps user frame `f` writable. */
  ghost predicate WritesIn(m: Mem, src: nat, f: nat) {
    exists k :: m.Maps(k) && k.space == src && m.ptes[k].frame == f && m.ptes[k].rw
  }

  /** Cloning protects the source in place, gives the destination the same entries and counts both mappings of every
      page it made copy-on-write. Page tables for the destination come from the free frames. */
  ghost predicate Cloned(m: Mem, m': Mem, src: nat, dst: nat) {
    && src in m.spaces && dst !in m.spaces && m'.spaces == m.spaces + {dst}
    && m'.kernelLo == m.kernelLo && m'.kernelHi == m.kernelHi
    && (forall k: Slot | k.space != src && k.space != dst :: (k in m'.ptes <==> k in m.ptes)
          && (k in m.ptes ==> m'.ptes[k] == m.ptes[k]))
    && (forall p: nat :: SameAfterClone(m, m', Slot(src, p), Slot(src, p))
          && SameAfterClone(m, m', Slot(src, p), Slot(dst, p)))
    && |m'.refs| == |m.refs|
    && (forall f | 0 <= f < |m.refs| && !m.IsKernel(f) ::
          m'.refs[f] == if WritesIn(m, src, f) then Inc(Inc(m.refs, f), f)[f] else m.refs[f])
    && (forall f | 0 <= f < |m.refs| && m.IsKernel(f) :: m'.refs[f] == m.refs[f] || m.refs[f] < m'.refs[f] <= MAX)
    && KeepsFrames(m, m')
  }

  /** A clone that ran out of frames half-way: some pages of the source are protected, and those are counted. */
  ghost predicate HalfCloned(m: Mem, m': Mem, src: nat) {
    && m'.spaces == m.spaces && m'.kernelLo == m.kernelLo && m'.kernelHi == m.kernelHi && m'.ptes.Keys == m.ptes.Keys
    && (forall k | k in m.ptes :: HalfSame(m, m', src, k))
    && |m'.refs| == |m.refs| && (forall f | 0 <= f < |m.refs| :: m.refs[f] <= m'.refs[f] <= MAX)
    && KeepsFrames(m, m')
  }

  predicate HalfSame(m: Mem, m': Mem, src: nat, k: Slot)
    requires k in m.ptes && k in m'.ptes
  {
    || m'.ptes[k] == m.ptes[k]
    || (k.space == src && m.Maps(k) && m.ptes[k].rw && m'.ptes[k] == Protect(m, m.ptes[k])
          && IsShared(m'.refs, m.ptes[k].frame))
  }

  /** Frames are taken and nothing is mapped. */
  ghost predicate Lost(m: Mem, m': Mem) {
    KeepsFrames(m, m') && m' == m.(frames := m'.frames, free := m'.free)
  }

  /** After the clone `to` has the protected entry that `from` had before, or none if it had none. */
  predicate SameAfterClone(m: Mem, m': Mem, from: Slot, to: Slot) {
    (to in m'.ptes <==> from in m.ptes) && (from in m.ptes ==> m'.ptes[to] == Protect(m, m.ptes[from]))
  }

  /** Frames in use keep their bytes; free frames may be taken for page tables. */
  ghost predicate KeepsFrames(m: Mem, m': Mem) {
    && m'.free <= m.free && m'.frames.Keys == m.frames.Keys
    && (forall f | f in m.frames && f !in m.free :: m'.frames[f] == m.frames[f])
    && (forall f | f in m'.frames :: |m'.frames[f]| == PAGE_SIZE)
  }

  /** The write fault on a copy-on-write page: copy to the frame `pick` if the old one is shared, else write in
      place. */
  function Fault(m: Mem, k: Slot, pick: nat): Mem
    requires m.Maps(k) && m.ptes[k].frame in m.frames
  {
    var e := m.ptes[k];
    if IsShared(m.refs, e.frame) then
      if pick !in m.free then m
      else
        var refs := Dec(m.refs, e.frame);
        var left := if Get(refs, e.frame) == 0 then {e.frame} else {};
        m.(ptes := m.ptes[k := e.(frame := pick, rw := true, cow := false)],
           frames := m.frames[pick := m.frames[e.frame]],
           refs := Refcount.Set(refs, pick, 1),
           free := m.free - {pick} + left)
    else
      m.(ptes := m.ptes[k := e.(rw := true, cow := false)])
  }

  /** One byte of a page is stored. */
  function Poke(page: Page, off: nat, v: byte): (r: Page)
    requires off < |page|
    ensures |r| == |page| && forall i | 0 <= i < |page| :: r[i] == if i == off then v else page[i]
  {
    page[off := v]
  }

  /** A store through a writable entry. */
  function Put(m: Mem, k: Slot, off: nat, v: byte): Mem
    requires m.Maps(k) && m.ptes[k].frame in m.frames && off < |m.frames[m.ptes[k].frame]|
  {
    var f := m.ptes[k].frame;
    m.(frames := m.frames[f := Poke(m.frames[f], off, v)])
  }

  /** A store to a page of the kernel image, which all spaces share, changes the image. */
  function KernelPut(m: Mem, k: Slot, off: nat, v: byte): Mem {
    if k in m.ptes && m.IsKernel(m.ptes[k].frame) && m.ptes[k].rw && m.ptes[k].frame in m.frames
       && off < |m.frames[m.ptes[k].frame]|
    then var f := m.ptes[k].frame; m.(frames := m.frames[f := Poke(m.frames[f], off, v)])
    else m
  }

  /** Whether a store gets through: at once, or after a fault that can be resolved. */
  predicate Takes(m: Mem, k: Slot, pick: nat) {
    && m.Maps(k)
    && (m.ptes[k].rw || (m.ptes[k].cow && (IsShared(m.refs, m.ptes[k].frame) ==> pick in m.free)))
  }

  /** One step of the kernel and the processor. A page that is not present is mapped writable on first touch, unless the
      frames run out. */
  ghost predicate Next(m: Mem, e: Event, m': Mem)
    requires Sound(m)
  {
    match e
    case Idle => m' == m
    case New(space) => space !in m.spaces && Lost(m, m'.(spaces := m.spaces)) && m'.spaces == m.spaces + {space}
    case Clone(src, dst) => Cloned(m, m', src, dst)
    case CloneFails(src) => HalfCloned(m, m', src)
    case Store(k, off, v, pick) =>
      if Takes(m, k, pick) && off < PAGE_SIZE then
        if m.ptes[k].rw then m' == Put(m, k, off, v)
        else
          FaultSound(m, k, pick);
          m' == Put(Fault(m, k, pick), k, off, v)
      else m' == KernelPut(m, k, off, v)
    case Touch(k, pick) => Lost(m, m') || Touched(m, m', k, pick)
    case Unmap(k) => m' == m.(ptes := m.ptes - {k})
  }

  /** The page is mapped to the free frame `pick` with the bytes that are in it. */
  ghost predicate Touched(m: Mem, m': Mem, k: Slot, pick: nat) {
    && k.space in m.spaces && k !in m.ptes && pick in m.free && pick in m.frames
    && KeepsFrames(m, m') && pick !in m'.free && m'.frames[pick] == m.frames[pick]
    && m' == m.(ptes := m.ptes[k := Pte(pick, true, true, true, false, false, 0)], frames := m'.frames, free := m'.free)
  }

  // ----- what the entries and counts guarantee -----

  /** Frames that user pages map hold a page, are in use and are counted; free frames are countable; pages of the kernel
      image are not copy-on-write. */
  ghost predicate Sound(m: Mem) {
    && (forall k | k in m.ptes :: k.space in m.spaces)
    && (forall k | m.Maps(k) :: Backed(m, k) && !(m.ptes[k].rw && m.ptes[k].cow))
    && (forall k | k in m.ptes && m.IsKernel(m.ptes[k].frame) :: !m.ptes[k].cow)
    && (forall f | f in m.frames :: |m.frames[f]| == PAGE_SIZE)
    && (forall f | f in m.free :: f in m.frames && f < |m.refs| && !m.IsKernel(f))
    && (forall f | 0 <= f < |m.refs| :: m.refs[f] <= MAX)
  }

  predicate Backed(m: Mem, k: Slot)
    requires k in m.ptes
  {
    m.ptes[k].frame in m.frames && m.ptes[k].frame !in m.free && m.ptes[k].frame < |m.refs|
  }

  /** Two different user mappings of one frame are both read-only, and both copy-on-write or both plain. */
  ghost predicate Compatible(m: Mem) {
    forall k, l | m.Maps(k) && m.Maps(l) && k != l && m.ptes[k].frame == m.ptes[l].frame ::
      !m.ptes[k].rw && (m.ptes[k].cow <==> m.ptes[l].cow)
  }

  /** The copy-on-write mappings of a frame. */
  ghost function CowUsers(m: Mem, f: nat): set<Slot> {
    set k | k in m.ptes && m.Maps(k) && m.ptes[k].frame == f && m.ptes[k].cow
  }

  /** A frame's count is at least the number of its copy-on-write mappings. */
  ghost predicate Counted(m: Mem) {
    forall f | 0 <= f < |m.refs| :: |CowUsers(m, f)| <= m.refs[f]
  }

  ghost predicate Inv(m: Mem) {
    Sound(m) && Compatible(m) && Counted(m)
  }

  lemma FaultSound(m: Mem, k: Slot, pick: nat)
    requires Sound(m) && Takes(m, k, pick) && !m.ptes[k].rw
    ensures m.ptes[k].frame in m.frames
    ensures var m' := Fault(m, k, pick);
            && Sound(m') && m'.Maps(k) && m'.ptes[k].rw && m'.ptes[k].frame in m'.frames
            && |m'.frames[m'.ptes[k].frame]| == PAGE_SIZE
  {
    assert Backed(m, k);
    var m' := Fault(m, k, pick);
    forall l | m'.Maps(l)
      ensures Backed(m', l) && !(m'.ptes[l].rw && m'.ptes[l].cow)
    {
      assert l != k ==> m.Maps(l) && Backed(m, l);
    }
  }

  // ----- the eager machine -----

  /** What the spaces read: the bytes of every user page. */
  ghost function View(m: Mem): map<Slot, Page>
    requires Sound(m)
  {
    map k | k in m.ptes && m.Maps(k) :: assert Backed(m, k); m.frames[m.ptes[k].frame]
  }

  /** The machine that copies every page at the clone, so that spaces never share. `takes` says whether a store gets
      through. */
  ghost predicate EagerNext(v: map<Slot, Page>, e: Event, takes: bool, v': map<Slot, Page>) {
    match e
    case Idle => v' == v
    case New(_) => v' == v
    case CloneFails(_) => v' == v
    case Clone(src, dst) =>
      && (forall k: Slot | k.space != dst :: (k in v' <==> k in v) && (k in v ==> v'[k] == v[k]))
      && (forall p: nat :: CopiedPage(v, v', Slot(src, p), Slot(dst, p)))
    case Store(k, off, b, _) =>
      if takes then k in v && off < |v[k]| && v' == v[k := Poke(v[k], off, b)] else v' == v
    case Touch(k, _) => v' == v || (k !in v && k in v' && v' == v[k := v'[k]])
    case Unmap(k) => v' == v - {k}
  }

  /** Byte `off` of page `k` reads `b`; every other byte of every page reads as before, and no page came or went. */
  ghost predicate OneByte(v: map<Slot, Page>, v': map<Slot, Page>, k: Slot, off: nat, b: byte) {
    && v'.Keys == v.Keys && k in v && off < |v[k]|
    && forall l, i {:trigger v'[l][i]} | l in v ::
         |v'[l]| == |v[l]| && (0 <= i < |v[l]| ==> v'[l][i] == if l == k && i == off then b else v[l][i])
  }

  /** A store of the eager machine is a store of one byte. */
  lemma StoresOneByte(v: map<Slot, Page>, k: Slot, off: nat, b: byte, pick: nat, v': map<Slot, Page>)
    requires EagerNext(v, Event.Store(k, off, b, pick), true, v')
    ensures OneByte(v, v', k, off, b)
  {
  }

  predicate CopiedPage(v: map<Slot, Page>, v': map<Slot, Page>, from: Slot, to: Slot) {
    (to in v' <==> from in v) && (from in v ==> v'[to] == v[from])
  }

  // ----- each step refines the eager one and keeps the invariant -----

  /** Entries and counts that stay. */
  lemma SamePtes(m: Mem, m': Mem)
    requires Compatible(m) && Counted(m) && m'.ptes == m.ptes && m'.refs == m.refs
    requires m'.kernelLo == m.kernelLo && m'.kernelHi == m.kernelHi
    ensures Compatible(m') && Counted(m')
  {
    assert forall k :: m'.Maps(k) <==> m.Maps(k);
    forall f | 0 <= f < |m.refs|
      ensures CowUsers(m', f) == CowUsers(m, f)
    {
    }
  }

  lemma PutStep(m: Mem, k: Slot, off: nat, v: byte)
    requires Inv(m) && m.Maps(k) && m.ptes[k].rw && off < PAGE_SIZE
    ensures m.ptes[k].frame in m.frames && off < |m.frames[m.ptes[k].frame]|
    ensures Inv(Put(m, k, off, v)) && k in View(m) && off < |View(m)[k]|
    ensures View(Put(m, k, off, v)) == View(m)[k := Poke(View(m)[k], off, v)]
  {
    assert Backed(m, k);
    PutSound(m, k, off, v);
    SamePtes(m, Put(m, k, off, v));
  }

  lemma PutIsSound(m: Mem, k: Slot, off: nat, v: byte)
    requires Sound(m) && m.Maps(k) && m.ptes[k].frame in m.frames && off < |m.frames[m.ptes[k].frame]|
    ensures Sound(Put(m, k, off, v))
  {
    var m' := Put(m, k, off, v);
    assert forall l | m'.Maps(l) :: m.Maps(l) && Backed(m, l) && Backed(m', l);
  }

  /** What a page reads. */
  lemma ViewAt(m: Mem, l: Slot)
    requires Sound(m)
    ensures l in View(m) <==> m.Maps(l)
    ensures m.Maps(l) ==> m.ptes[l].frame in m.frames && View(m)[l] == m.frames[m.ptes[l].frame]
  {
    assert m.Maps(l) ==> Backed(m, l);
  }

  lemma PutSound(m: Mem, k: Slot, off: nat, v: byte)
    requires Sound(m) && Compatible(m) && m.Maps(k) && m.ptes[k].rw
    requires m.ptes[k].frame in m.frames && off < |m.frames[m.ptes[k].frame]|
    ensures Sound(Put(m, k, off, v)) && k in View(m) && off < |View(m)[k]|
    ensures View(Put(m, k, off, v)) == View(m)[k := Poke(View(m)[k], off, v)]
  {
    PutIsSound(m, k, off, v);
    hide Sound, View;
    var m' := Put(m, k, off, v);
    ViewAt(m, k);
    forall l
      ensures l in View(m') <==> l in View(m)
      ensures l in View(m) ==> View(m')[l] == View(m)[k := Poke(View(m)[k], off, v)][l]
    {
      ViewAt(m, l);
      ViewAt(m', l);
    }
  }

  lemma FaultStep(m: Mem, k: Slot, pick: nat)
    requires Inv(m) && Takes(m, k, pick) && !m.ptes[k].rw
    ensures m.ptes[k].frame in m.frames
    ensures var m' := Fault(m, k, pick);
            Inv(m') && View(m') == View(m) && m'.Maps(k) && m'.ptes[k].rw
  {
    hide Compatible, Counted;
    FaultSound(m, k, pick);
    if IsShared(m.refs, m.ptes[k].frame) {
      CopyKeeps(m, k, pick);
    } else {
      InPlaceKeeps(m, k, pick);
    }
  }

  lemma CopyKeeps(m: Mem, k: Slot, pick: nat)
    requires Inv(m) && Takes(m, k, pick) && !m.ptes[k].rw && IsShared(m.refs, m.ptes[k].frame)
    requires m.ptes[k].frame in m.frames && Sound(Fault(m, k, pick))
    ensures var m' := Fault(m, k, pick); Compatible(m') && Counted(m') && View(m') == View(m)
  {
    hide Sound, Compatible, Counted, View;
    Unused(m, k, pick);
    CopyCounted(m, k, pick);
    CopyCompatible(m, k, pick);
    CopyView(m, k, pick);
  }

  lemma CopyCounted(m: Mem, k: Slot, pick: nat)
    requires Counted(m) && m.Maps(k) && m.ptes[k].cow && IsShared(m.refs, m.ptes[k].frame) && pick in m.free
    requires m.ptes[k].frame in m.frames && pick < |m.refs|
    requires forall l | m.Maps(l) :: m.ptes[l].frame != pick
    ensures Counted(Fault(m, k, pick))
  {
    var m', f := Fault(m, k, pick), m.ptes[k].frame;
    forall g | 0 <= g < |m.refs|
      ensures |CowUsers(m', g)| <= m'.refs[g]
    {
      if g == f {
        assert CowUsers(m', f) == CowUsers(m, f) - {k} && k in CowUsers(m, f);
      } else if g == pick {
        assert CowUsers(m', pick) == {};
      } else {
        assert CowUsers(m', g) == CowUsers(m, g);
      }
    }
  }

  lemma CopyCompatible(m: Mem, k: Slot, pick: nat)
    requires Compatible(m) && m.Maps(k) && IsShared(m.refs, m.ptes[k].frame) && pick in m.free && !m.IsKernel(pick)
    requires m.ptes[k].frame in m.frames
    requires forall l | m.Maps(l) :: m.ptes[l].frame != pick
    ensures Compatible(Fault(m, k, pick))
  {
    var m' := Fault(m, k, pick);
    assert forall l | l != k :: m'.Maps(l) <==> m.Maps(l);
  }

  lemma CopyView(m: Mem, k: Slot, pick: nat)
    requires m.Maps(k) && IsShared(m.refs, m.ptes[k].frame) && pick in m.free && !m.IsKernel(pick)
    requires m.ptes[k].frame in m.frames
    requires forall l | m.Maps(l) :: m.ptes[l].frame != pick && m.ptes[l].frame in m.frames
    requires Sound(m) && Sound(Fault(m, k, pick))
    ensures View(Fault(m, k, pick)) == View(m)
  {
    hide Sound;
    var m' := Fault(m, k, pick);
    assert forall l :: m'.Maps(l) <==> m.Maps(l);
  }

  /** No user page maps a free frame. */
  lemma Unused(m: Mem, k: Slot, pick: nat)
    requires Sound(m) && pick in m.free && m.Maps(k)
    ensures pick < |m.refs| && pick in m.frames && !m.IsKernel(pick) && m.ptes[k].frame < |m.refs|
    ensures forall l | m.Maps(l) :: m.ptes[l].frame != pick && m.ptes[l].frame in m.frames
  {
  }

  lemma InPlaceKeeps(m: Mem, k: Slot, pick: nat)
    requires Inv(m) && Takes(m, k, pick) && !m.ptes[k].rw && !IsShared(m.refs, m.ptes[k].frame)
    requires m.ptes[k].frame in m.frames && Sound(Fault(m, k, pick))
    ensures var m' := Fault(m, k, pick); Compatible(m') && Counted(m') && View(m') == View(m)
  {
    hide Sound, Compatible, Counted, View, Fault;
    SoleUser(m, k);
    InPlaceIs(m, k, pick);
    var m' := Fault(m, k, pick);
    InPlaceCompatible(m, k, m'.ptes[k]);
    InPlaceCounted(m, k, m'.ptes[k]);
    SameFrameView(m, k, m'.ptes[k]);
  }

  lemma InPlaceIs(m: Mem, k: Slot, pick: nat)
    requires m.Maps(k) && m.ptes[k].frame in m.frames && !IsShared(m.refs, m.ptes[k].frame)
    ensures Fault(m, k, pick) == m.(ptes := m.ptes[k := m.ptes[k].(rw := true, cow := false)])
  {
  }

  /** The only mapping of a frame may become writable. */
  lemma InPlaceCompatible(m: Mem, k: Slot, e: Pte)
    requires Compatible(m) && m.Maps(k) && e.frame == m.ptes[k].frame
    requires forall l | m.Maps(l) && m.ptes[l].frame == e.frame :: l == k
    ensures Compatible(m.(ptes := m.ptes[k := e]))
  {
    var m' := m.(ptes := m.ptes[k := e]);
    assert forall l | l != k :: m'.Maps(l) <==> m.Maps(l);
  }

  lemma InPlaceCounted(m: Mem, k: Slot, e: Pte)
    requires Counted(m) && m.Maps(k) && e.frame == m.ptes[k].frame && !e.cow
    requires CowUsers(m, e.frame) == {k}
    ensures Counted(m.(ptes := m.ptes[k := e]))
  {
    var m' := m.(ptes := m.ptes[k := e]);
    forall g | 0 <= g < |m.refs|
      ensures |CowUsers(m', g)| <= m'.refs[g]
    {
      UsersInPlace(m, k, e, g);
    }
  }

  lemma UsersInPlace(m: Mem, k: Slot, e: Pte, g: nat)
    requires m.Maps(k) && e.frame == m.ptes[k].frame && !e.cow
    ensures CowUsers(m.(ptes := m.ptes[k := e]), g) == CowUsers(m, g) - {k}
  {
  }

  /** What a page reads depends on its frame alone. */
  lemma SameFrameView(m: Mem, k: Slot, e: Pte)
    requires Sound(m) && m.Maps(k) && e.frame == m.ptes[k].frame && Sound(m.(ptes := m.ptes[k := e]))
    ensures View(m.(ptes := m.ptes[k := e])) == View(m)
  {
    var m' := m.(ptes := m.ptes[k := e]);
    assert forall l :: m'.Maps(l) <==> m.Maps(l);
  }

  /** A copy-on-write page whose frame is not shared by count is the only mapping of that frame. */
  lemma SoleUser(m: Mem, k: Slot)
    requires Inv(m) && m.Maps(k) && m.ptes[k].cow && !IsShared(m.refs, m.ptes[k].frame)
    ensures forall l | m.Maps(l) && m.ptes[l].frame == m.ptes[k].frame :: l == k
    ensures CowUsers(m, m.ptes[k].frame) == {k}
  {
    assert Backed(m, k);
    var users := CowUsers(m, m.ptes[k].frame);
    assert k in users;
    forall l | m.Maps(l) && m.ptes[l].frame == m.ptes[k].frame
      ensures l == k
    {
      if l != k {
        assert l in users;
        PairSize(users, k, l);
      }
    }
  }

  lemma PairSize<T>(s: set<T>, x: T, y: T)
    requires x in s && y in s && x != y
    ensures |s| >= 2
  {
    assert |s - {x} - {y}| == |s| - 2;
  }

  // ----- cloning -----

  /** The entry before the clone that entry `k` after it comes from. */
  function Origin(k: Slot, src: nat, dst: nat): Slot {
    if k.space == dst then Slot(src, k.page) else k
  }

  lemma EntryAfterClone(m: Mem, m': Mem, src: nat, dst: nat, k: Slot)
    requires Cloned(m, m', src, dst)
    ensures k in m'.ptes <==> Origin(k, src, dst) in m.ptes
    ensures k in m'.ptes ==>
              m'.ptes[k] == if k.space == src || k.space == dst then Protect(m, m.ptes[Origin(k, src, dst)])
                  else m.ptes[k]
    ensures m'.Maps(k) <==> m.Maps(Origin(k, src, dst))
  {
  }

  lemma CloneSound(m: Mem, m': Mem, src: nat, dst: nat)
    requires Sound(m) && Cloned(m, m', src, dst)
    ensures Sound(m')
  {
    hide Cloned;
    CloneRefs(m, m', src, dst);
    forall k | k in m'.ptes
      ensures k.space in m'.spaces
      ensures m'.Maps(k) ==> Backed(m', k) && !(m'.ptes[k].rw && m'.ptes[k].cow)
      ensures m'.IsKernel(m'.ptes[k].frame) ==> !m'.ptes[k].cow
    {
      EntryAfterClone(m, m', src, dst, k);
      assert m.Maps(Origin(k, src, dst)) ==> Backed(m, Origin(k, src, dst));
    }
  }

  lemma CloneRefs(m: Mem, m': Mem, src: nat, dst: nat)
    requires Sound(m) && Cloned(m, m', src, dst)
    ensures m'.spaces == m.spaces + {dst} && src in m.spaces && m'.kernelLo == m.kernelLo && m'.kernelHi == m.kernelHi
    ensures |m'.refs| == |m.refs| && KeepsFrames(m, m')
    ensures forall f | 0 <= f < |m.refs| :: m'.refs[f] <= MAX
    ensures forall f | 0 <= f < |m.refs| && !m.IsKernel(f) ::
              if WritesIn(m, src, f) then m'.refs[f] >= 2 else m'.refs[f] == m.refs[f]
  {
  }

  lemma CloneCompatible(m: Mem, m': Mem, src: nat, dst: nat)
    requires Inv(m) && Cloned(m, m', src, dst)
    ensures Compatible(m')
  {
    forall k, l | m'.Maps(k) && m'.Maps(l) && k != l && m'.ptes[k].frame == m'.ptes[l].frame
      ensures !m'.ptes[k].rw && (m'.ptes[k].cow <==> m'.ptes[l].cow)
    {
      hide Cloned;
      EntryAfterClone(m, m', src, dst, k);
      EntryAfterClone(m, m', src, dst, l);
    }
  }

  /** The copy-on-write pages of `src` on a frame, as pages of `dst`. */
  ghost function Copies(m: Mem, src: nat, dst: nat, f: nat): set<Slot> {
    set k | k in CowUsers(m, f) && k.space == src :: Slot(dst, k.page)
  }

  ghost function CowIn(m: Mem, src: nat, f: nat): set<Slot> {
    set k | k in CowUsers(m, f) && k.space == src
  }

  lemma {:induction false} CopiesSize(s: set<Slot>, dst: nat, t: set<Slot>, src: nat)
    requires forall k | k in s :: k.space == src
    requires t == set k | k in s :: Slot(dst, k.page)
    ensures |t| == |s|
  {
    if s != {} {
      var x :| x in s;
      var s', t' := s - {x}, t - {Slot(dst, x.page)};
      forall y | y in t'
        ensures exists k :: k in s' && y == Slot(dst, k.page)
      {
        var k :| k in s && y == Slot(dst, k.page);
      }
      forall k | k in s'
        ensures Slot(dst, k.page) in t'
      {
        assert k.page != x.page;
      }
      CopiesSize(s', dst, t', src);
    }
  }

  /** A page that was writable has exactly its two mappings as copy-on-write users after the clone. */
  lemma UsersOfWritten(m: Mem, m': Mem, src: nat, dst: nat, f: nat)
    requires Sound(m) && Compatible(m) && Cloned(m, m', src, dst) && WritesIn(m, src, f)
    ensures CowUsers(m, f) == {} && |CowUsers(m', f)| == 2
  {
    var k :| m.Maps(k) && k.space == src && m.ptes[k].frame == f && m.ptes[k].rw;
    var d := Slot(dst, k.page);
    assert k != d && d !in m.ptes;
    forall l
      ensures l in CowUsers(m', f) <==> l in {k, d}
    {
      hide Cloned;
      EntryAfterClone(m, m', src, dst, l);
    }
    assert CowUsers(m', f) == {k, d};
  }

  /** Otherwise the destination adds a user for every copy-on-write page of the source. */
  lemma UsersOfOthers(m: Mem, m': Mem, src: nat, dst: nat, f: nat)
    requires Sound(m) && Compatible(m) && Cloned(m, m', src, dst) && !WritesIn(m, src, f)
    ensures CowUsers(m', f) == CowUsers(m, f) + Copies(m, src, dst, f)
    ensures |CowUsers(m', f)| == |CowUsers(m, f)| + |CowIn(m, src, f)|
  {
    assert forall k | k in m.ptes :: k.space != dst;
    forall l
      ensures l in CowUsers(m', f) <==> l in CowUsers(m, f) + Copies(m, src, dst, f)
    {
      hide Cloned;
      EntryAfterClone(m, m', src, dst, l);
      InCopies(m, src, dst, f, l);
    }
    CopiesSize(CowIn(m, src, f), dst, Copies(m, src, dst, f), src);
    assert CowUsers(m, f) !! Copies(m, src, dst, f);
  }

  lemma InCopies(m: Mem, src: nat, dst: nat, f: nat, l: Slot)
    ensures l in Copies(m, src, dst, f) <==> l.space == dst && Slot(src, l.page) in CowUsers(m, f)
  {
  }

  /** Every frame is counted for the users that cloning `src` would give it. */
  ghost predicate RoomToClone(m: Mem, src: nat) {
    forall f | 0 <= f < |m.refs| :: |CowUsers(m, f)| + |CowIn(m, src, f)| <= m.refs[f]
  }

  /** Cloning keeps the counts right exactly when the counts already cover the copy-on-write pages of the source a
      second time, because only pages that are still writable are counted. */
  lemma CloneKeepsIff(m: Mem, m': Mem, src: nat, dst: nat)
    requires Inv(m) && Cloned(m, m', src, dst)
    ensures Inv(m') <==> RoomToClone(m, src)
  {
    CloneSound(m, m', src, dst);
    CloneCompatible(m, m', src, dst);
    CloneRefs(m, m', src, dst);
    forall f | 0 <= f < |m.refs|
      ensures |CowUsers(m', f)| <= m'.refs[f] <==> |CowUsers(m, f)| + |CowIn(m, src, f)| <= m.refs[f]
    {
      hide Cloned, Sound, Compatible;
      if m.IsKernel(f) {
        assert CowUsers(m', f) == {} == CowUsers(m, f) == CowIn(m, src, f);
      } else if WritesIn(m, src, f) {
        UsersOfWritten(m, m', src, dst, f);
        assert CowIn(m, src, f) == {};
      } else {
        UsersOfOthers(m, m', src, dst, f);
      }
    }
  }

  ghost predicate CowFree(m: Mem, src: nat) {
    forall k | m.Maps(k) && k.space == src :: !m.ptes[k].cow
  }

  lemma CowFreeHasRoom(m: Mem, src: nat)
    requires Inv(m) && CowFree(m, src)
    ensures RoomToClone(m, src)
  {
  }

  lemma ViewAfterClone(m: Mem, m': Mem, src: nat, dst: nat, k: Slot)
    requires Sound(m) && Sound(m') && Cloned(m, m', src, dst)
    ensures k in View(m') <==> Origin(k, src, dst) in View(m)
    ensures k in View(m') ==> View(m')[k] == View(m)[Origin(k, src, dst)]
  {
    CloneRefs(m, m', src, dst);
    hide Cloned;
    EntryAfterClone(m, m', src, dst, k);
    assert m.Maps(Origin(k, src, dst)) ==> Backed(m, Origin(k, src, dst));
  }

  /** After a clone both spaces read what the source read. */
  lemma CloneView(m: Mem, m': Mem, src: nat, dst: nat)
    requires Sound(m) && Sound(m') && Cloned(m, m', src, dst)
    ensures EagerNext(View(m), Clone(src, dst), true, View(m'))
  {
    hide Cloned, Sound, View;
    forall k: Slot
      ensures k.space != dst ==> (k in View(m') <==> k in View(m)) && (k in View(m) ==> View(m')[k] == View(m)[k])
    {
      ViewAfterClone(m, m', src, dst, k);
    }
    forall p: nat
      ensures CopiedPage(View(m), View(m'), Slot(src, p), Slot(dst, p))
    {
      ViewAfterClone(m, m', src, dst, Slot(dst, p));
    }
  }

  // ----- every step, and whole runs -----

  lemma TouchStep(m: Mem, k: Slot, pick: nat, m': Mem)
    requires Inv(m) && Next(m, Touch(k, pick), m')
    ensures Inv(m') && EagerNext(View(m), Touch(k, pick), true, View(m'))
  {
    if Lost(m, m') {
      LostStep(m, m');
    } else {
      FreshUnused(m, pick);
      TouchSound(m, k, pick, m');
      TouchView(m, k, pick, m');
      TouchKeeps(m, k, pick, m');
    }
  }

  lemma TouchKeeps(m: Mem, k: Slot, pick: nat, m': Mem)
    requires Compatible(m) && Counted(m) && Touched(m, m', k, pick)
    requires forall l | m.Maps(l) :: m.ptes[l].frame != pick
    ensures Compatible(m') && Counted(m')
  {
    hide KeepsFrames;
    assert forall l | l != k :: m'.Maps(l) <==> m.Maps(l);
    forall f | 0 <= f < |m.refs|
      ensures CowUsers(m', f) == CowUsers(m, f)
    {
    }
  }

  lemma LostStep(m: Mem, m': Mem)
    requires Inv(m) && Lost(m, m')
    ensures Inv(m') && View(m') == View(m)
  {
    LostSound(m, m');
    SamePtes(m, m');
  }

  lemma LostSound(m: Mem, m': Mem)
    requires Sound(m) && Lost(m, m')
    ensures Sound(m') && View(m') == View(m)
  {
    assert forall k | m'.Maps(k) :: m.Maps(k) && Backed(m, k) && Backed(m', k);
  }

  lemma NewStep(m: Mem, space: nat, m': Mem)
    requires Inv(m) && Next(m, New(space), m')
    ensures Inv(m') && View(m') == View(m)
  {
    var m1 := m'.(spaces := m.spaces);
    LostStep(m, m1);
    SamePtes(m1, m');
    NewSound(m1, m');
  }

  lemma NewSound(m: Mem, m': Mem)
    requires Sound(m) && m' == m.(spaces := m'.spaces) && m.spaces <= m'.spaces
    ensures Sound(m') && View(m') == View(m)
  {
    assert forall k | m'.Maps(k) :: m.Maps(k) && Backed(m, k) && Backed(m', k);
  }

  lemma KernelPutStep(m: Mem, k: Slot, off: nat, v: byte)
    requires Inv(m)
    ensures Inv(KernelPut(m, k, off, v)) && View(KernelPut(m, k, off, v)) == View(m)
  {
    var m' := KernelPut(m, k, off, v);
    SamePtes(m, m');
    assert forall l | m'.Maps(l) :: m.Maps(l) && Backed(m, l) && Backed(m', l);
  }

  /** A half-done clone: the counts still cover the copy-on-write pages and nobody reads anything else. */
  lemma HalfCloneStep(m: Mem, m': Mem, src: nat)
    requires Inv(m) && HalfCloned(m, m', src)
    ensures Inv(m') && View(m') == View(m)
  {
    HalfSound(m, m', src);
    HalfCompatible(m, m', src);
    forall f | 0 <= f < |m.refs|
      ensures |CowUsers(m', f)| <= m'.refs[f]
    {
      HalfUsers(m, m', src, f);
    }
  }

  lemma HalfSound(m: Mem, m': Mem, src: nat)
    requires Sound(m) && HalfCloned(m, m', src)
    ensures Sound(m') && View(m') == View(m)
  {
    forall k | k in m'.ptes
      ensures m'.Maps(k) <==> m.Maps(k)
      ensures m'.Maps(k) ==> Backed(m', k) && !(m'.ptes[k].rw && m'.ptes[k].cow)
      ensures m'.ptes[k].frame == m.ptes[k].frame
      ensures m'.IsKernel(m'.ptes[k].frame) ==> !m'.ptes[k].cow
    {
      assert HalfSame(m, m', src, k);
      assert m.Maps(k) ==> Backed(m, k);
    }
  }

  lemma HalfCompatible(m: Mem, m': Mem, src: nat)
    requires Compatible(m) && HalfCloned(m, m', src)
    ensures Compatible(m')
  {
    forall k, l | m'.Maps(k) && m'.Maps(l) && k != l && m'.ptes[k].frame == m'.ptes[l].frame
      ensures !m'.ptes[k].rw && (m'.ptes[k].cow <==> m'.ptes[l].cow)
    {
      assert HalfSame(m, m', src, k) && HalfSame(m, m', src, l);
      assert m.Maps(k) && m.Maps(l);
    }
  }

  lemma HalfUsers(m: Mem, m': Mem, src: nat, f: nat)
    requires Compatible(m) && Counted(m) && HalfCloned(m, m', src) && f < |m.refs|
    ensures |CowUsers(m', f)| <= m'.refs[f]
  {
    if k :| k in m.ptes && m.ptes[k].frame == f && m'.ptes[k] != m.ptes[k] {
      assert HalfSame(m, m', src, k);
      forall l | l in CowUsers(m', f)
        ensures l == k
      {
        assert HalfSame(m, m', src, l) && m.Maps(l);
      }
      assert CowUsers(m', f) <= {k};
      SubsetOne(CowUsers(m', f), k);
    } else {
      forall l | l in m.ptes
        ensures l in CowUsers(m', f) <==> l in CowUsers(m, f)
      {
        assert HalfSame(m, m', src, l);
      }
      assert CowUsers(m', f) == CowUsers(m, f);
    }
  }

  lemma SubsetOne(s: set<Slot>, k: Slot)
    requires s <= {k}
    ensures |s| <= 1
  {
    assert s == {} || s == {k};
  }

  lemma FreshUnused(m: Mem, pick: nat)
    requires Sound(m) && pick in m.free
    ensures !m.IsKernel(pick) && forall l | m.Maps(l) :: m.ptes[l].frame != pick
  {
  }

  lemma TouchSound(m: Mem, k: Slot, pick: nat, m': Mem)
    requires Sound(m) && Touched(m, m', k, pick)
    ensures Sound(m')
  {
  }

  lemma TouchView(m: Mem, k: Slot, pick: nat, m': Mem)
    requires Sound(m) && Touched(m, m', k, pick) && Sound(m')
    ensures k !in View(m) && k in View(m') && View(m') == View(m)[k := View(m')[k]]
  {
  }

  lemma UnmapStep(m: Mem, k: Slot, m': Mem)
    requires Inv(m) && Next(m, Unmap(k), m')
    ensures Inv(m') && EagerNext(View(m), Unmap(k), true, View(m'))
  {
    UnmapSound(m, k, m');
    hide Sound;
    forall f | 0 <= f < |m.refs|
      ensures |CowUsers(m', f)| <= |CowUsers(m, f)|
    {
      assert CowUsers(m', f) == CowUsers(m, f) - {k};
    }
  }

  lemma UnmapSound(m: Mem, k: Slot, m': Mem)
    requires Sound(m) && Next(m, Unmap(k), m')
    ensures Sound(m') && View(m') == View(m) - {k}
  {
    assert forall l | m'.Maps(l) :: m.Maps(l) && Backed(m, l) && Backed(m', l);
  }

  /** Whether the store of an event gets through. */
  predicate GetsThrough(m: Mem, e: Event) {
    match e
    case Store(k, off, _, pick) => Takes(m, k, pick) && off < PAGE_SIZE
    case _ => true
  }

  /** Cloning only spaces whose counts have room for it, each step keeps the invariant and does to what the spaces
      read exactly what the eager machine does. */
  lemma StepRefines(m: Mem, e: Event, m': Mem)
    requires Inv(m) && Next(m, e, m') && (e.Clone? ==> RoomToClone(m, e.src))
    ensures Inv(m') && EagerNext(View(m), e, GetsThrough(m, e), View(m'))
  {
    match e
    case Idle =>
    case New(space) => NewStep(m, space, m');
    case CloneFails(src) => HalfCloneStep(m, m', src);
    case Clone(src, dst) =>
      CloneKeepsIff(m, m', src, dst);
      CloneView(m, m', src, dst);
    case Store(k, off, v, pick) =>
      if Takes(m, k, pick) && off < PAGE_SIZE {
        if m.ptes[k].rw {
          PutStep(m, k, off, v);
        } else {
          FaultStep(m, k, pick);
          PutStep(Fault(m, k, pick), k, off, v);
        }
      } else {
        KernelPutStep(m, k, off, v);
      }
    case Touch(k, pick) => TouchStep(m, k, pick, m');
    case Unmap(k) => UnmapStep(m, k, m');
  }

  /** A run: states[i] goes to states[i + 1] by events[i], and only spaces without copy-on-write pages are cloned. */
  ghost predicate IsRun(states: seq<Mem>, events: seq<Event>) {
    && |states| == |events| + 1 && Inv(states[0])
    && forall i | 0 <= i < |events| :: RunStep(states[i], events[i], states[i + 1])
  }

  ghost predicate RunStep(m: Mem, e: Event, m': Mem) {
    Sound(m) ==> Next(m, e, m') && (e.Clone? ==> CowFree(m, e.src))
  }

  /** The invariant holds on both sides, and what the spaces read changes as in the eager machine. */
  ghost predicate Refines(m: Mem, e: Event, m': Mem) {
    Inv(m) && Inv(m') && EagerNext(View(m), e, GetsThrough(m, e), View(m'))
  }

  /** Over every run each space reads as if it had a private copy from the start. */
  lemma {:induction false} RunRefines(states: seq<Mem>, events: seq<Event>, n: nat)
    requires IsRun(states, events) && n <= |events|
    ensures Inv(states[n]) && forall i | 0 <= i < n :: Refines(states[i], events[i], states[i + 1])
  {
    hide Inv, Sound, Next, CowFree, EagerNext, RoomToClone;
    if n > 0 {
      RunRefines(states, events, n - 1);
      RunStepRefines(states[n - 1], events[n - 1], states[n]);
    }
  }

  lemma RunStepRefines(m: Mem, e: Event, m': Mem)
    requires Inv(m) && RunStep(m, e, m')
    ensures Inv(m') && Refines(m, e, m')
  {
    hide Compatible, Counted, CowFree, RoomToClone, EagerNext;
    if e.Clone? {
      CowFreeHasRoom(m, e.src);
    }
    StepRefines(m, e, m');
  }

  // ----- where isolation fails -----

  const WRITABLE := Pte(1, true, true, true, false, false, 0)
  const SHARED := Pte(1, true, false, true, false, true, 0)

  /** One space with one writable page on frame 1, and frame 2 free. */
  function OnePage(): Mem {
    Mem({0}, map[Slot(0, 0) := WRITABLE], map[1 := Zeros(PAGE_SIZE), 2 := Zeros(PAGE_SIZE)], [0, 0, 0], {2}, 0, 0)
  }

  function ClonedOnce(): Mem {
    OnePage().(spaces := {0, 1}, ptes := map[Slot(0, 0) := SHARED, Slot(1, 0) := SHARED], refs := [0, 2, 0])
  }

  /** The second clone of space 0 finds its page no longer writable and does not count it. */
  function ClonedTwice(): Mem {
    ClonedOnce().(spaces := {0, 1, 2},
                  ptes := map[Slot(0, 0) := SHARED, Slot(1, 0) := SHARED, Slot(2, 0) := SHARED])
  }

  lemma OnePageInv()
    ensures Inv(OnePage())
  {
    var m := OnePage();
    forall f | 0 <= f < |m.refs|
      ensures CowUsers(m, f) == {}
    {
    }
  }

  lemma ClonedOnceIs()
    ensures Cloned(OnePage(), ClonedOnce(), 0, 1)
  {
    var m, m' := OnePage(), ClonedOnce();
    assert m.Maps(Slot(0, 0));
    assert WritesIn(m, 0, 1) && !WritesIn(m, 0, 0) && !WritesIn(m, 0, 2);
    forall p: nat
      ensures SameAfterClone(m, m', Slot(0, p), Slot(0, p)) && SameAfterClone(m, m', Slot(0, p), Slot(1, p))
    {
    }
  }

  lemma ClonedTwiceIs()
    ensures Cloned(ClonedOnce(), ClonedTwice(), 0, 2) && !CowFree(ClonedOnce(), 0)
  {
  }

  /** A run of stores: states[i] goes to states[i + 1] by events[i]. */
  ghost predicate StoreRun(states: seq<Mem>, events: seq<Event>) {
    && |states| == |events| + 1 && (forall i | 0 <= i < |states| :: Sound(states[i]))
    && forall i | 0 <= i < |events| :: events[i].Store? && Next(states[i], events[i], states[i + 1])
  }

  /** The last event does something that the eager machine does not. */
  ghost predicate EndsInLeak(states: seq<Mem>, events: seq<Event>)
    requires StoreRun(states, events) && events != []
  {
    var n := |events| - 1;
    !EagerNext(View(states[n]), events[n], GetsThrough(states[n], events[n]), View(states[n + 1]))
  }

  /** A frame with more copy-on-write pages than its count says, one store before it is written in place: the other
      pages see the store. */
  lemma LastStoreLeaks(m: Mem, f: nat, k: Slot, l: Slot) returns (e: Event, m': Mem)
    requires Sound(m) && Compatible(m) && f < |m.refs| && m.refs[f] <= 1
    requires k in CowUsers(m, f) && l in CowUsers(m, f) && k != l
    ensures e.Store? && Next(m, e, m') && Sound(m') && !EagerNext(View(m), e, GetsThrough(m, e), View(m'))
  {
    assert Backed(m, k) && Backed(m, l);
    var page := m.frames[f];
    var v: byte := if page[0] == 0 then 1 else 0;
    e := Store(k, 0, v, 0);
    FaultSound(m, k, 0);
    var m1 := Fault(m, k, 0);
    m' := Put(m1, k, 0, v);
    PutIsSound(m1, k, 0, v);
    ViewAt(m, l);
    ViewAt(m', l);
    hide Sound, View, Compatible;
    assert View(m)[l] == page && View(m')[l] == Poke(page, 0, v);
    assert View(m')[l][0] != View(m)[l][0];
  }

  /** A store that copies: one user and one count less, and still too many users. */
  lemma CopyingStore(m: Mem, f: nat, k: Slot, pick: nat) returns (e: Event, m': Mem)
    requires Sound(m) && Compatible(m) && f < |m.refs| && m.refs[f] > 1 && k in CowUsers(m, f) && pick in m.free
    ensures e.Store? && Next(m, e, m') && Sound(m') && Compatible(m') && |m'.refs| == |m.refs|
    ensures m'.refs[f] == m.refs[f] - 1 && CowUsers(m', f) == CowUsers(m, f) - {k} && m'.free == m.free - {pick}
  {
    assert Backed(m, k);
    e := Store(k, 0, 0, pick);
    Unused(m, k, pick);
    FaultSound(m, k, pick);
    CopyCompatible(m, k, pick);
    var m1 := Fault(m, k, pick);
    PutSound(m1, k, 0, 0);
    m' := Put(m1, k, 0, 0);
    hide Sound;
    assert forall j :: m'.Maps(j) <==> m1.Maps(j);
  }

  /** From every state in which a frame has more copy-on-write pages than its count, with frames left for the copies,
      some run of stores ends in a store that another page sees. */
  lemma {:induction false} LeakFrom(m: Mem, f: nat) returns (states: seq<Mem>, events: seq<Event>)
    requires Sound(m) && Compatible(m) && f < |m.refs| && 1 <= m.refs[f] < |CowUsers(m, f)|
    requires m.refs[f] <= |m.free| + 1
    ensures StoreRun(states, events) && events != [] && states[0] == m && EndsInLeak(states, events)
    decreases m.refs[f]
  {
    hide Sound, Next, Compatible, EagerNext, View, GetsThrough;
    var users := CowUsers(m, f);
    var k :| k in users;
    if m.refs[f] == 1 {
      assert |users - {k}| == |users| - 1;
      var l :| l in users - {k};
      var e, m' := LastStoreLeaks(m, f, k, l);
      states, events := [m, m'], [e];
    } else {
      var pick :| pick in m.free;
      var e, m' := CopyingStore(m, f, k, pick);
      states, events := LeakFrom(m', f);
      assert EndsInLeak([m] + states, [e] + events);
      states, events := [m] + states, [e] + events;
    }
  }

  /** What CloneKeepsIff means for the spaces: after a clone without room, with enough free frames for the copies, some
      run of stores shows one space the store of another. So with room for the counts, and only then, every run that
      follows is an eager one. */
  lemma CloneLeaks(m: Mem, m': Mem, src: nat, dst: nat) returns (states: seq<Mem>, events: seq<Event>)
    requires Inv(m) && Cloned(m, m', src, dst) && !RoomToClone(m, src)
    requires forall f | 0 <= f < |m.refs| :: m'.refs[f] <= |m'.free| + 1
    ensures StoreRun(states, events) && events != [] && states[0] == m' && EndsInLeak(states, events)
  {
    CloneSound(m, m', src, dst);
    CloneCompatible(m, m', src, dst);
    CloneRefs(m, m', src, dst);
    CloneKeepsIff(m, m', src, dst);
    var f :| 0 <= f < |m.refs| && m'.refs[f] < |CowUsers(m', f)|;
    CountedAtAll(m, m', src, dst, f);
    states, events := LeakFrom(m', f);
  }

  /** A frame whose count a clone left short was counted before. */
  lemma CountedAtAll(m: Mem, m': Mem, src: nat, dst: nat, f: nat)
    requires Inv(m) && Cloned(m, m', src, dst) && f < |m.refs| && m'.refs[f] < |CowUsers(m', f)|
    ensures m'.refs[f] >= 1
  {
    CloneRefs(m, m', src, dst);
    hide Cloned, Sound, Compatible;
    var k :| k in CowUsers(m', f);
    EntryAfterClone(m, m', src, dst, k);
    var o := Origin(k, src, dst);
    if !WritesIn(m, src, f) {
      assert m.ptes[o].frame == f && m.Maps(o);
      assert o in CowUsers(m, f);
    }
  }

  /** The condition fails in a reachable state: one space cloned twice, with no store in between. */
  lemma SecondCloneLeaks() returns (states: seq<Mem>, events: seq<Event>)
    ensures Inv(OnePage()) && Cloned(OnePage(), ClonedOnce(), 0, 1) && Cloned(ClonedOnce(), ClonedTwice(), 0, 2)
    ensures StoreRun(states, events) && events != [] && states[0] == ClonedTwice() && EndsInLeak(states, events)
  {
    hide Sound, Next, Cloned, Inv, RoomToClone;
    OnePageInv();
    ClonedOnceIs();
    ClonedTwiceIs();
    assert CowFree(OnePage(), 0) by { assert forall k | k in OnePage().ptes :: k == Slot(0, 0); }
    CowFreeHasRoom(OnePage(), 0);
    CloneKeepsIff(OnePage(), ClonedOnce(), 0, 1);
    NoRoomOnce();
    states, events := CloneLeaks(ClonedOnce(), ClonedTwice(), 0, 2);
  }

  lemma NoRoomOnce()
    ensures !RoomToClone(ClonedOnce(), 0)
  {
    var m := ClonedOnce();
    assert CowUsers(m, 1) == {Slot(0, 0), Slot(1, 0)};
    assert CowIn(m, 0, 1) == {Slot(0, 0)};
  }

  /** A frame behind the end of the reference-count table never counts as shared: a fault on it writes in place even
      while another space maps it. */
  lemma UncountedFrameLeaks(m: Mem, k: Slot, l: Slot, off: nat, v: byte, pick: nat)
    requires m.Maps(k) && m.Maps(l) && k != l && m.ptes[k].cow && m.ptes[k].frame == m.ptes[l].frame
    requires m.ptes[k].frame in m.frames && off < |m.frames[m.ptes[k].frame]| && m.frames[m.ptes[k].frame][off] != v
    requires m.ptes[k].frame >= |m.refs|
    ensures var m' := Put(Fault(m, k, pick), k, off, v);
            m'.Maps(l) && m'.frames[m'.ptes[l].frame] != m.frames[m.ptes[l].frame]
  {
  }
}
