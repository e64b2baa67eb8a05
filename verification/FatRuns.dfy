/** Whole runs of the FAT32 driver against plain files: a map from file to bytes. */
module FatRuns {
  import opened Bytes
  import opened FatLayout
  import opened FatChains
  import opened FatContent
  import opened FatInvariant
  import opened FatFiles
  import opened FatMount
  import opened FatVolume
  import M = CacheModel

  datatype Op =
    | Read(id: nat, offset: nat, n: nat)
    | Write(id: nat, offset: nat, src: seq<byte>)
    | Create(dir: nat, name: seq<byte>, ntRes: byte, id: nat)
    | Remove(dir: nat, id: nat)

  /** Skipped: the operation names no such file or directory or no legal name, or writes out of the driver's reach. */
  datatype Reply = Skipped | Data(buf: seq<byte>) | Count(n: int) | Made(ok: bool) | Gone

  /** Files and their bytes, directories, and for each listed file its directory and the head of its entry: eleven bytes
      of name, the attributes, and the case bits. */
  datatype Plain = Plain(files: map<nat, seq<byte>>, dirs: set<nat>, home: map<nat, nat>, heads: map<nat, seq<byte>>)

  // ----- plain files -----

  /** What an operation with that reply leaves of the plain files. */
  function Next(s: Plain, op: Op, r: Reply): Plain {
    match op
    case Write(id, offset, src) =>
      if id in s.files && r.Count? && 0 < r.n <= |src|
      then s.(files := s.files[id := WriteSpec(s.files[id], offset, src[..r.n])]) else s
    case Create(dir, name, ntRes, id) =>
      if r == Made(true)
      then s.(files := s.files[id := []], home := s.home[id := dir], heads := s.heads[id := name + [0x20, ntRes]])
      else s
    case Remove(_, id) =>
      if r == Gone then s.(files := s.files - {id}, home := s.home - {id}, heads := s.heads - {id}) else s
    case Read(_, _, _) => s
  }

  predicate LegalName(name: seq<byte>) { |name| == 11 && !FreeSlot(name[0]) }

  /** The replies that plain files allow on a volume with clusters of `cs` bytes; only a full volume may accept less
      than everything. */
  predicate Allowed(s: Plain, op: Op, r: Reply, full: bool, cs: nat) {
    match op
    case Read(id, offset, n) => if id in s.files then r == Data(ReadSpec(s.files[id], offset, n)) else r == Skipped
    case Write(id, offset, src) =>
      if id in s.files && InReach(offset + |src|, cs)
      then r.Count? && -1 <= r.n <= |src| && (r.n == 0 <==> src == []) && (r.n < |src| ==> full)
      else r == Skipped
    case Create(dir, name, _, id) =>
      if dir in s.dirs && id !in s.files && id !in s.dirs && |name| == 11 && name[0] != 0 && name[0] != 0xE5
      then r == Made(true) || (r == Made(false) && full)
      else r == Skipped
    case Remove(dir, id) => if id in s.files && id in s.home && s.home[id] == dir then r == Gone else r == Skipped
  }

  /** Something was created, removed or written. */
  predicate Accepts(r: Reply) { r == Made(true) || r == Gone || (r.Count? && r.n > 0) }

  /** A write of which bytes at or behind 4 GiB were accepted. */
  predicate Overlong(op: Op, r: Reply) {
    op.Write? && r.Count? && r.n > 0 && op.offset + r.n >= TWO32
  }

  // ----- the driver's files -----

  ghost function Seen(vs: map<nat, Vnode>, bs: map<nat, seq<byte>>, ps: map<nat, nat>): Plain {
    Plain(Files(vs, bs), set id | id in vs && vs[id].isDir, map id | id in vs && !vs[id].isDir && id in ps :: ps[id],
          Heads(vs, bs, ps))
  }

  /** The file's entry lies in the bytes of its directory. */
  ghost predicate HasSlot(vs: map<nat, Vnode>, bs: map<nat, seq<byte>>, ps: map<nat, nat>, id: nat) {
    && id in vs && !vs[id].isDir && vs[id].dirCluster >= FIRST && id in ps && ps[id] in bs
    && vs[id].dirOffset + 32 <= |bs[ps[id]]|
  }

  ghost function Heads(vs: map<nat, Vnode>, bs: map<nat, seq<byte>>, ps: map<nat, nat>): map<nat, seq<byte>> {
    map id | id in vs && HasSlot(vs, bs, ps, id) :: bs[ps[id]][vs[id].dirOffset..vs[id].dirOffset + 13]
  }

  lemma SameHeads(f: map<nat, seq<byte>>, g: map<nat, seq<byte>>)
    requires forall p :: (p in f <==> p in g) && (p in f ==> f[p] == g[p])
    ensures f == g
  {
  }

  /** The head depends on the slot's bytes. */
  lemma HeadOfSlot(dir: seq<byte>, dir': seq<byte>, at: nat)
    requires at + 32 <= |dir| && at + 32 <= |dir'| && dir'[at..at + 20] == dir[at..at + 20]
    ensures dir'[at..at + 13] == dir[at..at + 13]
  {
    assert dir[at..at + 13] == dir[at..at + 20][..13] && dir'[at..at + 13] == dir'[at..at + 20][..13];
  }

  /** Writes leave names alone. */
  lemma WriteHeads(vs: map<nat, Vnode>, bs: map<nat, seq<byte>>, vs': map<nat, Vnode>, bs': map<nat, seq<byte>>,
                   ps: map<nat, nat>, fat': seq<nat>, id: nat, src: seq<byte>, offset: nat, n: int)
    requires WriteOutcome(vs, bs, vs', bs', ps, fat', id, src, offset, n) && AllListed(vs, bs, ps) && !vs[id].isDir
    ensures Heads(vs', bs', ps) == Heads(vs, bs, ps)
  {
    hide DirentCluster, DirentSize, Written, Full, PutDirent, SizeAfter, Heads;
    forall p
      ensures (p in Heads(vs', bs', ps) <==> p in Heads(vs, bs, ps))
      ensures p in Heads(vs, bs, ps) ==> Heads(vs', bs', ps)[p] == Heads(vs, bs, ps)[p]
    {
      HeadsAt(vs, bs, ps, p);
      HeadsAt(vs', bs', ps, p);
      if p in vs && !vs[p].isDir && vs[p].dirCluster >= FIRST {
        assert Listed(vs, bs, ps, p);
        if n > 0 && vs[id].dirCluster >= FIRST && ps[p] == ps[id] {
          WriteInDir(vs, bs, vs', bs', ps, fat', id, src, offset, n, p);
        }
      }
    }
    SameHeads(Heads(vs', bs', ps), Heads(vs, bs, ps));
  }

  lemma WriteInDir(vs: map<nat, Vnode>, bs: map<nat, seq<byte>>, vs': map<nat, Vnode>, bs': map<nat, seq<byte>>,
                   ps: map<nat, nat>, fat': seq<nat>, id: nat, src: seq<byte>, offset: nat, n: int, p: nat)
    requires WriteOutcome(vs, bs, vs', bs', ps, fat', id, src, offset, n) && AllListed(vs, bs, ps) && !vs[id].isDir
    requires n > 0 && vs[id].dirCluster >= FIRST && p in vs && vs[p].dirCluster >= FIRST && Listed(vs, bs, ps, p)
    requires Listed(vs, bs, ps, id) && ps[p] == ps[id]
    ensures |bs'[ps[p]]| == |bs[ps[p]]|
    ensures bs'[ps[p]][vs[p].dirOffset..vs[p].dirOffset + 13] == bs[ps[p]][vs[p].dirOffset..vs[p].dirOffset + 13]
  {
    hide DirentCluster, DirentSize, Written, Full, PutDirent, SizeAfter;
    var d, at := ps[p], vs[p].dirOffset;
    DirentRoundTrip(bs[d], vs[id].dirOffset, vs'[id].start, vs'[id].size);
    if p != id {
      WriteIsRecorded(vs, bs, vs', bs', ps, fat', id, src, offset, n, p);
      assert bs'[d][at..at + 20] == bs'[d][at..at + 32][..20] && bs[d][at..at + 20] == bs[d][at..at + 32][..20];
    }
    HeadOfSlot(bs[d], bs'[d], at);
  }

  lemma HeadsAt(vs: map<nat, Vnode>, bs: map<nat, seq<byte>>, ps: map<nat, nat>, p: nat)
    ensures p in Heads(vs, bs, ps) <==> HasSlot(vs, bs, ps, p)
    ensures p in Heads(vs, bs, ps) ==>
              Heads(vs, bs, ps)[p] == bs[ps[p]][vs[p].dirOffset..vs[p].dirOffset + 13]
  {
  }

  /** A new file has the name it was created with, and the others keep theirs. */
  lemma CreateHeads(vs: map<nat, Vnode>, bs: map<nat, seq<byte>>, ps: map<nat, nat>, vs': map<nat, Vnode>,
                    bs': map<nat, seq<byte>>, ps': map<nat, nat>, dir: nat, name: seq<byte>, ntRes: byte, id: nat)
    requires Created(vs, bs, vs', bs', ps', dir, name, ntRes, id) && bs.Keys == vs.Keys && bs'.Keys == vs'.Keys
    requires AllListed(vs, bs, ps) && AllListed(vs', bs', ps') && vs[dir].isDir && vs[dir].start >= FIRST
    requires ps' == ps[id := dir]
    ensures Heads(vs', bs', ps') == Heads(vs, bs, ps)[id := name + [0x20, ntRes]]
  {
    hide NoneFree, FreeSlot, Overlay, NewEntry, Heads;
    var at := vs'[id].dirOffset;
    forall p
      ensures p in Heads(vs', bs', ps') <==> p in Heads(vs, bs, ps)[id := name + [0x20, ntRes]]
      ensures p in Heads(vs', bs', ps') ==> Heads(vs', bs', ps')[p] == Heads(vs, bs, ps)[id := name + [0x20, ntRes]][p]
    {
      HeadsAt(vs, bs, ps, p);
      HeadsAt(vs', bs', ps', p);
      if p == id {
        CreatedSpells(vs, bs, vs', bs', ps', dir, name, ntRes, id);
      } else if p in vs && !vs[p].isDir && vs[p].dirCluster >= FIRST {
        assert Listed(vs, bs, ps, p) && Listed(vs', bs', ps', p) && Listed(vs', bs', ps', id);
        if ps[p] == dir {
          CreatedElsewhere(vs, bs, vs', bs', ps', dir, name, ntRes, id, vs[p].dirOffset);
        }
      }
    }
    SameHeads(Heads(vs', bs', ps'), Heads(vs, bs, ps)[id := name + [0x20, ntRes]]);
  }

  lemma CreatedElsewhere(vs: map<nat, Vnode>, bs: map<nat, seq<byte>>, vs': map<nat, Vnode>, bs': map<nat, seq<byte>>,
                         ps': map<nat, nat>, dir: nat, name: seq<byte>, ntRes: byte, id: nat, at: nat)
    requires Created(vs, bs, vs', bs', ps', dir, name, ntRes, id) && at % 32 == 0 && at + 32 <= |bs[dir]|
    requires vs'[id].dirOffset % 32 == 0 && vs'[id].dirOffset != at
    ensures bs'[dir][at..at + 13] == bs[dir][at..at + 13]
  {
    hide NoneFree, FreeSlot;
    SlotsApart(at, vs'[id].dirOffset);
    var grown := bs[dir] + Zeros(|bs'[dir]| - |bs[dir]|);
    assert grown[at..at + 13] == bs[dir][at..at + 13];
    assert bs'[dir][at..at + 13] == grown[at..at + 13];
  }

  /** A removed file takes its name along; the others keep theirs. */
  lemma RemoveHeads(vs: map<nat, Vnode>, bs: map<nat, seq<byte>>, ps: map<nat, nat>, id: nat)
    requires bs.Keys == vs.Keys && AllListed(vs, bs, ps) && id in vs && !vs[id].isDir && vs[id].dirCluster >= FIRST
    requires id in ps && ps[id] in vs && vs[ps[id]].isDir && vs[id].dirOffset + 32 <= |bs[ps[id]]|
    ensures Heads(vs - {id}, bs[ps[id] := Overlay(bs[ps[id]], vs[id].dirOffset, [0xE5])] - {id}, ps - {id}) ==
            Heads(vs, bs, ps) - {id}
  {
    hide Overlay, Heads;
    var d := ps[id];
    var vs', bs', ps' := vs - {id}, bs[d := Overlay(bs[d], vs[id].dirOffset, [0xE5])] - {id}, ps - {id};
    assert Listed(vs, bs, ps, id);
    forall p
      ensures p in Heads(vs', bs', ps') <==> p in Heads(vs, bs, ps) - {id}
      ensures p in Heads(vs', bs', ps') ==> Heads(vs', bs', ps')[p] == (Heads(vs, bs, ps) - {id})[p]
    {
      HeadsAt(vs, bs, ps, p);
      HeadsAt(vs', bs', ps', p);
      if p in vs && p != id && !vs[p].isDir && vs[p].dirCluster >= FIRST {
        assert Listed(vs, bs, ps, p);
        if ps[p] == d {
          MarkElsewhere(bs[d], vs[id].dirOffset, vs[p].dirOffset);
        }
      }
    }
    SameHeads(Heads(vs', bs', ps'), Heads(vs, bs, ps) - {id});
  }

  lemma MarkElsewhere(dir: seq<byte>, at: nat, other: nat)
    requires at % 32 == 0 && other % 32 == 0 && at != other && at + 32 <= |dir| && other + 32 <= |dir|
    ensures Overlay(dir, at, [0xE5])[other..other + 13] == dir[other..other + 13]
  {
    SlotsApart(at, other);
  }

  ghost function Files(vs: map<nat, Vnode>, bs: map<nat, seq<byte>>): map<nat, seq<byte>> {
    map id | id in vs && !vs[id].isDir && id in bs && vs[id].size <= |bs[id]| :: bs[id][..vs[id].size]
  }

  /** The chains of regular files are zero behind their ends, and directories have a cluster. */
  ghost predicate Clean(vs: map<nat, Vnode>, bs: map<nat, seq<byte>>) {
    && bs.Keys == vs.Keys && (forall id | id in vs && vs[id].isDir :: vs[id].start >= FIRST)
    && forall id | id in vs && !vs[id].isDir ::
         vs[id].size <= |bs[id]| && vs[id].size < TWO32 && TailZero(bs[id], vs[id].size)
  }

  /** The entry of a listed file gives its first cluster and its size, or no cluster if the file is empty. */
  ghost predicate Named(vs: map<nat, Vnode>, bs: map<nat, seq<byte>>, ps: map<nat, nat>) {
    bs.Keys == vs.Keys && forall id | id in vs && !vs[id].isDir && vs[id].dirCluster >= FIRST :: NamedAt(vs, bs, ps, id)
  }

  ghost predicate NamedAt(vs: map<nat, Vnode>, bs: map<nat, seq<byte>>, ps: map<nat, nat>, id: nat)
    requires id in vs
  {
    && id in ps && ps[id] in bs && vs[id].dirOffset + 32 <= |bs[ps[id]]|
    && var c, size := DirentCluster(bs[ps[id]], vs[id].dirOffset), DirentSize(bs[ps[id]], vs[id].dirOffset);
       && size == vs[id].size
       && if c < FIRST then size == 0 else c == vs[id].start
  }

  // ----- each operation -----

  /** Of the regular files a write touches its own. */
  lemma WriteElsewhere(vs: map<nat, Vnode>, bs: map<nat, seq<byte>>, vs': map<nat, Vnode>, bs': map<nat, seq<byte>>,
                       ps: map<nat, nat>, fat': seq<nat>, id: nat, src: seq<byte>, offset: nat, n: int)
    requires WriteOutcome(vs, bs, vs', bs', ps, fat', id, src, offset, n) && AllListed(vs, bs, ps)
    ensures id in vs && id in vs' && bs.Keys == vs.Keys == vs'.Keys == bs'.Keys && -1 <= n <= |src|
    ensures vs' == vs[id := vs'[id]] && vs'[id].isDir == vs[id].isDir
    ensures forall p | p in vs && p != id && !vs[p].isDir :: bs'[p] == bs[p]
  {
  }

  lemma FilesAt(vs: map<nat, Vnode>, bs: map<nat, seq<byte>>, p: nat)
    requires Clean(vs, bs)
    ensures p in Files(vs, bs) <==> p in vs && !vs[p].isDir
    ensures p in Files(vs, bs) ==> vs[p].size <= |bs[p]| && Files(vs, bs)[p] == bs[p][..vs[p].size]
  {
  }

  lemma SameFiles(f: map<nat, seq<byte>>, g: map<nat, seq<byte>>)
    requires forall p :: (p in f <==> p in g) && (p in f ==> f[p] == g[p])
    ensures f == g
  {
  }

  lemma WriteStep(vs: map<nat, Vnode>, bs: map<nat, seq<byte>>, vs': map<nat, Vnode>, bs': map<nat, seq<byte>>,
                  ps: map<nat, nat>, fat': seq<nat>, id: nat, src: seq<byte>, offset: nat, n: int)
    requires WriteOutcome(vs, bs, vs', bs', ps, fat', id, src, offset, n) && AllListed(vs, bs, ps)
    requires Clean(vs, bs) && !vs[id].isDir
    ensures id in Files(vs, bs)
    ensures !Overlong(Write(id, offset, src), Count(n)) ==> Clean(vs', bs')
    ensures Seen(vs', bs', ps) == Next(Seen(vs, bs, ps), Write(id, offset, src), Count(n)) <==>
            !Overlong(Write(id, offset, src), Count(n))
  {
    hide WriteOutcome, AllListed, WriteSpec, TailZero, Files, Clean, Heads;
    WriteHeads(vs, bs, vs', bs', ps, fat', id, src, offset, n);
    WriteElsewhere(vs, bs, vs', bs', ps, fat', id, src, offset, n);
    CleanAt(vs, bs, id);
    WriteIsFlatIff(vs, bs, vs', bs', ps, fat', id, src, offset, n);
    FilesAt(vs, bs, id);
    var op := Write(id, offset, src);
    var s, s' := Seen(vs, bs, ps), Seen(vs', bs', ps);
    FilesIn(vs', bs', id);
    if !Overlong(op, Count(n)) {
      WriteClean(vs, bs, vs', bs', id);
      forall p
        ensures (p in s'.files <==> p in Next(s, op, Count(n)).files)
        ensures p in s'.files ==> s'.files[p] == Next(s, op, Count(n)).files[p]
      {
        FilesAt(vs, bs, p);
        FilesAt(vs', bs', p);
      }
      SameFiles(s'.files, Next(s, op, Count(n)).files);
      assert s'.dirs == s.dirs && s'.home == s.home;
    }
  }

  lemma CleanAt(vs: map<nat, Vnode>, bs: map<nat, seq<byte>>, id: nat)
    requires Clean(vs, bs) && id in vs && !vs[id].isDir
    ensures id in bs && vs[id].size <= |bs[id]| && vs[id].size < TWO32 && TailZero(bs[id], vs[id].size)
  {
  }

  lemma WriteClean(vs: map<nat, Vnode>, bs: map<nat, seq<byte>>, vs': map<nat, Vnode>, bs': map<nat, seq<byte>>,
                   id: nat)
    requires Clean(vs, bs) && id in vs && id in vs' && bs'.Keys == vs'.Keys == vs.Keys
    requires vs' == vs[id := vs'[id]] && !vs'[id].isDir && !vs[id].isDir
    requires forall p | p in vs && p != id && !vs[p].isDir :: bs'[p] == bs[p]
    requires vs'[id].size <= |bs'[id]| && vs'[id].size < TWO32 && TailZero(bs'[id], vs'[id].size)
    ensures Clean(vs', bs')
  {
    hide TailZero;
  }

  lemma FilesIn(vs: map<nat, Vnode>, bs: map<nat, seq<byte>>, p: nat)
    requires p in vs && !vs[p].isDir && p in bs && vs[p].size <= |bs[p]|
    ensures p in Files(vs, bs) && Files(vs, bs)[p] == bs[p][..vs[p].size]
  {
  }

  lemma CreateKeeps(vs: map<nat, Vnode>, bs: map<nat, seq<byte>>, ps: map<nat, nat>, vs': map<nat, Vnode>,
                    bs': map<nat, seq<byte>>, ps': map<nat, nat>, dir: nat, name: seq<byte>, ntRes: byte, id: nat)
    requires Created(vs, bs, vs', bs', ps', dir, name, ntRes, id) && Clean(vs, bs) && vs[dir].isDir
    requires ps' == ps[id := dir] && bs'.Keys == vs'.Keys && AllListed(vs, bs, ps) && AllListed(vs', bs', ps')
    ensures Clean(vs', bs')
    ensures Seen(vs', bs', ps') == Next(Seen(vs, bs, ps), Create(dir, name, ntRes, id), Made(true))
  {
    hide NoneFree, FreeSlot, NewEntry, Overlay, Files, AllListed, Heads;
    var s, s' := Seen(vs, bs, ps), Seen(vs', bs', ps');
    CreateHeads(vs, bs, ps, vs', bs', ps', dir, name, ntRes, id);
    CreateClean(vs, bs, vs', bs', ps', dir, name, ntRes, id);
    forall p
      ensures (p in s'.files <==> p in s.files[id := []]) && (p in s'.files ==> s'.files[p] == s.files[id := []][p])
    {
      FilesAt(vs, bs, p);
      FilesAt(vs', bs', p);
    }
    SameFiles(s'.files, s.files[id := []]);
    hide Created;
    assert s'.dirs == s.dirs;
    assert s'.home == s.home[id := dir];
  }

  lemma CreateClean(vs: map<nat, Vnode>, bs: map<nat, seq<byte>>, vs': map<nat, Vnode>, bs': map<nat, seq<byte>>,
                    ps': map<nat, nat>, dir: nat, name: seq<byte>, ntRes: byte, id: nat)
    requires Created(vs, bs, vs', bs', ps', dir, name, ntRes, id) && Clean(vs, bs) && vs[dir].isDir
    ensures Clean(vs', bs')
  {
    hide NoneFree, FreeSlot, NewEntry, Overlay;
  }

  lemma RemoveKeeps(vs: map<nat, Vnode>, bs: map<nat, seq<byte>>, ps: map<nat, nat>, dir: nat, id: nat, b: seq<byte>)
    requires Clean(vs, bs) && id in vs && dir in vs && vs[dir].isDir && !vs[id].isDir && vs[id].dirCluster >= FIRST
    requires AllListed(vs, bs, ps) && id in ps && ps[id] == dir && vs[id].dirOffset + 32 <= |bs[dir]|
    requires b == Overlay(bs[dir], vs[id].dirOffset, [0xE5])
    ensures Clean(vs - {id}, bs[dir := b] - {id})
    ensures Seen(vs - {id}, bs[dir := b] - {id}, ps - {id}) == Next(Seen(vs, bs, ps), Remove(dir, id), Gone)
  {
    hide AllListed, Heads, Overlay;
    RemoveHeads(vs, bs, ps, id);
    var s, s' := Seen(vs, bs, ps), Seen(vs - {id}, bs[dir := b] - {id}, ps - {id});
    assert s'.files == s.files - {id};
    assert s'.dirs == s.dirs;
    assert s'.home == s.home - {id};
  }

  // ----- entries keep naming -----

  /** An entry's first cluster and size depend on its 32 bytes. */
  lemma SameEntry(dir: seq<byte>, dir': seq<byte>, at: nat)
    requires at + 32 <= |dir| && at + 32 <= |dir'| && dir'[at..at + 32] == dir[at..at + 32]
    ensures DirentCluster(dir', at) == DirentCluster(dir, at) && DirentSize(dir', at) == DirentSize(dir, at)
  {
    Inner(dir, at, 20, 22);
    Inner(dir, at, 26, 28);
    Inner(dir, at, 28, 32);
    Inner(dir', at, 20, 22);
    Inner(dir', at, 26, 28);
    Inner(dir', at, 28, 32);
  }

  lemma Inner(s: seq<byte>, at: nat, i: nat, j: nat)
    requires at + 32 <= |s| && i <= j <= 32
    ensures s[at + i..at + j] == s[at..at + 32][i..j]
  {
    var x, y := s[at + i..at + j], s[at..at + 32][i..j];
    assert forall k | 0 <= k < j - i :: x[k] == s[at + i + k] && y[k] == s[at + i + k];
  }

  /** Other bytes in the slot of one file leave the entries of the others. */
  lemma SlotElsewhere(dir: seq<byte>, at: nat, w: seq<byte>, other: nat)
    requires at % 32 == 0 && other % 32 == 0 && at != other && at + 32 <= |dir| && other + 32 <= |dir| && |w| <= 32
    ensures DirentCluster(Overlay(dir, at, w), other) == DirentCluster(dir, other)
    ensures DirentSize(Overlay(dir, at, w), other) == DirentSize(dir, other)
  {
  }

  lemma LongerDirectory(dir: seq<byte>, more: seq<byte>, at: nat)
    requires at + 32 <= |dir|
    ensures DirentCluster(dir + more, at) == DirentCluster(dir, at) && DirentSize(dir + more, at) == DirentSize(dir, at)
  {
  }

  lemma WriteNames(vs: map<nat, Vnode>, bs: map<nat, seq<byte>>, vs': map<nat, Vnode>, bs': map<nat, seq<byte>>,
                   ps: map<nat, nat>, fat': seq<nat>, id: nat, src: seq<byte>, offset: nat, n: int)
    requires WriteOutcome(vs, bs, vs', bs', ps, fat', id, src, offset, n) && AllListed(vs, bs, ps) && !vs[id].isDir
    requires Named(vs, bs, ps)
    ensures Named(vs', bs', ps)
  {
    hide DirentCluster, DirentSize, Written, Full, PutDirent;
    forall p | p in vs' && !vs'[p].isDir && vs'[p].dirCluster >= FIRST
      ensures NamedAt(vs', bs', ps, p)
    {
      assert NamedAt(vs, bs, ps, p) && Listed(vs, bs, ps, p);
      if n > 0 && vs[id].dirCluster >= FIRST {
        assert Listed(vs, bs, ps, id);
        WriteIsRecorded(vs, bs, vs', bs', ps, fat', id, src, offset, n, p);
        if p != id && ps[p] == ps[id] {
          SameEntry(bs[ps[p]], bs'[ps[p]], vs[p].dirOffset);
        }
      }
    }
  }

  lemma CreateNames(vs: map<nat, Vnode>, bs: map<nat, seq<byte>>, ps: map<nat, nat>, vs': map<nat, Vnode>,
                    bs': map<nat, seq<byte>>, ps': map<nat, nat>, dir: nat, name: seq<byte>, ntRes: byte, id: nat)
    requires Created(vs, bs, vs', bs', ps', dir, name, ntRes, id) && bs.Keys == vs.Keys && bs'.Keys == vs'.Keys
    requires AllListed(vs, bs, ps) && AllListed(vs', bs', ps')
    requires Named(vs, bs, ps) && vs[dir].isDir && ps' == ps[id := dir]
    ensures Named(vs', bs', ps')
  {
    hide DirentCluster, DirentSize, NoneFree, FreeSlot, Overlay, NewEntry;
    var at := vs'[id].dirOffset;
    var grown := bs[dir] + Zeros(|bs'[dir]| - |bs[dir]|);
    if vs'[id].dirCluster >= FIRST {
      assert Listed(vs', bs', ps', id);
      NewNamesNone(grown, at, name, ntRes);
    }
    forall p | p in vs && !vs[p].isDir && vs[p].dirCluster >= FIRST
      ensures NamedAt(vs', bs', ps', p)
    {
      assert NamedAt(vs, bs, ps, p) && Listed(vs, bs, ps, p) && Listed(vs', bs', ps', p);
      if ps[p] == dir {
        LongerDirectory(bs[dir], Zeros(|bs'[dir]| - |bs[dir]|), vs[p].dirOffset);
        assert vs[p].dirOffset != at;
        assert at % 32 == 0;
        SlotElsewhere(grown, at, NewEntry(name, ntRes), vs[p].dirOffset);
      }
    }
  }

  /** A new entry names no cluster. */
  lemma NewNamesNone(dir: seq<byte>, at: nat, name: seq<byte>, ntRes: byte)
    requires at + 32 <= |dir| && |name| == 11
    ensures |NewEntry(name, ntRes)| == 32
    ensures DirentCluster(Overlay(dir, at, NewEntry(name, ntRes)), at) == 0
    ensures DirentSize(Overlay(dir, at, NewEntry(name, ntRes)), at) == 0
  {
  }

  lemma RemoveNames(vs: map<nat, Vnode>, bs: map<nat, seq<byte>>, ps: map<nat, nat>, id: nat)
    requires bs.Keys == vs.Keys && AllListed(vs, bs, ps) && Named(vs, bs, ps) && id in vs && !vs[id].isDir
             && vs[id].dirCluster >= FIRST && id in ps
    requires ps[id] in vs && vs[ps[id]].isDir && vs[id].dirOffset + 32 <= |bs[ps[id]]|
    ensures Named(vs - {id}, bs[ps[id] := Overlay(bs[ps[id]], vs[id].dirOffset, [0xE5])] - {id}, ps - {id})
  {
    hide DirentCluster, DirentSize, Overlay;
    var d := ps[id];
    var vs', bs', ps' := vs - {id}, bs[d := Overlay(bs[d], vs[id].dirOffset, [0xE5])] - {id}, ps - {id};
    assert Listed(vs, bs, ps, id);
    forall p | p in vs' && !vs'[p].isDir && vs'[p].dirCluster >= FIRST
      ensures NamedAt(vs', bs', ps', p)
    {
      assert NamedAt(vs, bs, ps, p) && Listed(vs, bs, ps, p);
      if ps[p] == d {
        SlotElsewhere(bs[d], vs[id].dirOffset, [0xE5], vs[p].dirOffset);
      }
    }
  }

  // ----- runs -----

  ghost predicate Ready(fs: FileSystem)
    reads fs, fs.mnt, fs.mnt.vol, fs.mnt.vol.cache
  {
    fs.Valid() && Clean(fs.vnodes, fs.bytes) && Named(fs.vnodes, fs.bytes, fs.parent)
  }

  /** The plain files, the allocation table, and the clusters in use that no vnode has. */
  datatype Snap = Snap(plain: Plain, fat: seq<nat>, stray: set<nat>)

  ghost function Now(fs: FileSystem): Snap
    reads fs, fs.mnt, fs.mnt.vol
  {
    Snap(View(fs), fs.mnt.vol.fat, Stray(fs.mnt.vol.fat, fs.chains))
  }

  predicate RemovesEmpty(s: Plain, op: Op, r: Reply) {
    op.Remove? && r == Gone && op.id in s.files && s.files[op.id] == []
  }

  /** One operation: its reply is allowed, the plain files go on as they should unless the write was overlong, only a
      removal frees clusters, and only the removal of an empty file can lose any. */
  ghost predicate Step(a: Snap, op: Op, r: Reply, b: Snap, cs: nat) {
    && Allowed(a.plain, op, r, Full(b.fat), cs)
    && (b.plain == Next(a.plain, op, r) <==> !Overlong(op, r))
    && (r != Gone ==> StaysUsed(a.fat, b.fat))
    && a.stray <= b.stray && (b.stray != a.stray ==> RemovesEmpty(a.plain, op, r))
  }

  /** The first cluster that the file's directory entry names. */
  method EntryCluster(fs: FileSystem, id: nat) returns (c: nat)
    requires fs.Valid() && id in fs.vnodes && fs.vnodes[id].dirCluster >= FIRST
    modifies fs.mnt.vol.cache
    ensures fs.Valid()
    ensures id in fs.parent && fs.parent[id] in fs.bytes && fs.vnodes[id].dirOffset + 32 <= |fs.bytes[fs.parent[id]]|
    ensures c == DirentCluster(fs.bytes[fs.parent[id]], fs.vnodes[id].dirOffset)
  {
    hide Consistent, DirentCluster, IsChain;
    var v := fs.vnodes[id];
    FactsOf(fs.mnt.vol.fat, fs.mnt.vol.data, fs.vnodes, fs.chains, fs.bytes, fs.parent, id);
    ghost var p := fs.parent[id];
    FactsOf(fs.mnt.vol.fat, fs.mnt.vol.data, fs.vnodes, fs.chains, fs.bytes, fs.parent, p);
    var cs := fs.mnt.vol.geo.clusterSize;
    ghost var ch := fs.chains[p];
    Locate(fs.mnt.vol.data, ch, cs, v.dirOffset);
    var cur := fs.mnt.Walk(v.dirCluster, ClusterIndex(v.dirOffset, cs), ch);
    var buf := CopyOut(fs.mnt.vol, cur, InCluster(v.dirOffset, cs), 32, ch, ClusterIndex(v.dirOffset, cs),
                       v.dirOffset - InCluster(v.dirOffset, cs));
    EntryAlone(fs.bytes[p], v.dirOffset);
    c := DirentCluster(buf, 0);
  }

  lemma EntryAlone(dir: seq<byte>, at: nat)
    requires at + 32 <= |dir|
    ensures DirentCluster(dir[at..at + 32], 0) == DirentCluster(dir, at)
  {
    Inner(dir, at, 20, 22);
    Inner(dir, at, 26, 28);
  }

  /** Two vnodes with the same first cluster are one. */
  lemma SameStart(fat: seq<nat>, data: seq<seq<byte>>, vs: map<nat, Vnode>, chains: map<nat, seq<nat>>,
                  bytes: map<nat, seq<byte>>, ps: map<nat, nat>, p: nat, q: nat)
    requires Consistent(fat, data, vs, chains, bytes, ps) && p in vs && q in vs && vs[p].start == vs[q].start >= FIRST
    ensures p == q
  {
    FactsOf(fat, data, vs, chains, bytes, ps, p);
    FactsOf(fat, data, vs, chains, bytes, ps, q);
    assert chains[p][0] in chains[p] && chains[q][0] in chains[q];
  }

  ghost function View(fs: FileSystem): Plain
    reads fs
  {
    Seen(fs.vnodes, fs.bytes, fs.parent)
  }

  method DoWrite(fs: FileSystem, id: nat, offset: nat, src: seq<byte>) returns (n: int)
    requires Ready(fs) && id in fs.vnodes && !fs.vnodes[id].isDir
    requires InReach(offset + |src|, fs.mnt.vol.geo.clusterSize)
    modifies fs, fs.mnt, fs.mnt.vol, fs.mnt.vol.cache
    ensures fs.Valid() && (!Overlong(Write(id, offset, src), Count(n)) ==> Ready(fs))
    ensures View(fs) == Next(old(View(fs)), Write(id, offset, src), Count(n)) <==>
            !Overlong(Write(id, offset, src), Count(n))
    ensures -1 <= n <= |src| && (n == 0 <==> src == []) && (n < |src| ==> Full(fs.mnt.vol.fat))
    ensures fs.parent == old(fs.parent) && id in fs.vnodes && !fs.vnodes[id].isDir
    ensures WriteOutcome(old(fs.vnodes), old(fs.bytes), fs.vnodes, fs.bytes, fs.parent, fs.mnt.vol.fat, id, src, offset,
            n)
    ensures src != [] && !Full(old(fs.mnt.vol.fat)) ==> fs.vnodes[id].start >= FIRST
    ensures Lengthened(old(fs.mnt.vol.fat), old(fs.chains), fs.mnt.vol.fat, fs.chains, id)
    ensures n > 0 ==> fs.mnt.vol.OnDevice()
  {
    hide Consistent, Clean, Named, Seen, Next, AllListed, Written, Overlay, SizeAfter, Lengthened;
    ghost var vs, bs, ps := fs.vnodes, fs.bytes, fs.parent;
    AllListedOf(fs.mnt.vol.fat, fs.mnt.vol.data, vs, fs.chains, bs, ps);
    n := fs.WriteAt(id, src, offset);
    WriteStep(vs, bs, fs.vnodes, fs.bytes, ps, fs.mnt.vol.fat, id, src, offset, n);
    WriteNames(vs, bs, fs.vnodes, fs.bytes, ps, fs.mnt.vol.fat, id, src, offset, n);
  }

  method DoCreate(fs: FileSystem, dir: nat, name: seq<byte>, ntRes: byte, id: nat) returns (ok: bool)
    requires Ready(fs) && dir in fs.vnodes && fs.vnodes[dir].isDir && id !in fs.vnodes && LegalName(name)
    modifies fs, fs.mnt, fs.mnt.vol, fs.mnt.vol.cache
    ensures Ready(fs) && (!ok ==> Full(fs.mnt.vol.fat))
    ensures View(fs) == Next(old(View(fs)), Create(dir, name, ntRes, id), Made(ok))
    ensures ok ==> && Created(old(fs.vnodes), old(fs.bytes), fs.vnodes, fs.bytes, fs.parent, dir, name, ntRes, id)
                   && fs.parent == old(fs.parent)[id := dir] && fs.mnt.vol.OnDevice()
    ensures Lengthened(old(fs.mnt.vol.fat), old(fs.chains), fs.mnt.vol.fat, fs.chains - {id}, dir)
    ensures if ok then id in fs.chains && fs.chains[id] == [] else id !in fs.chains
  {
    hide Consistent, Named, AllListed, Created, Seen, TailZero, Lengthened;
    ghost var vs, bs, ps := fs.vnodes, fs.bytes, fs.parent;
    AllListedOf(fs.mnt.vol.fat, fs.mnt.vol.data, vs, fs.chains, bs, ps);
    FactsOf(fs.mnt.vol.fat, fs.mnt.vol.data, vs, fs.chains, bs, ps, dir);
    ok := fs.Create(dir, name, ntRes, id);
    if ok {
      AllListedOf(fs.mnt.vol.fat, fs.mnt.vol.data, fs.vnodes, fs.chains, fs.bytes, fs.parent);
      CreateKeeps(vs, bs, ps, fs.vnodes, fs.bytes, fs.parent, dir, name, ntRes, id);
      CreateNames(vs, bs, ps, fs.vnodes, fs.bytes, fs.parent, dir, name, ntRes, id);
    }
  }

  method DoRemove(fs: FileSystem, dir: nat, id: nat)
    requires Ready(fs) && id in fs.vnodes && !fs.vnodes[id].isDir && id in fs.parent && fs.parent[id] == dir
    modifies fs, fs.mnt, fs.mnt.vol, fs.mnt.vol.cache
    ensures Ready(fs) && View(fs) == Next(old(View(fs)), Remove(dir, id), Gone)
    ensures id in old(fs.vnodes) && dir in old(fs.bytes) && id in old(fs.chains)
    ensures old(fs.vnodes)[id].dirOffset + 32 <= |old(fs.bytes)[dir]|
    ensures fs.mnt.vol.fat == Cleared(old(fs.mnt.vol.fat), old(fs.chains)[id]) <==>
            || DirentCluster(old(fs.bytes)[dir], old(fs.vnodes)[id].dirOffset) >= FIRST
            || old(fs.vnodes)[id].start < FIRST
    ensures DirentCluster(old(fs.bytes)[dir], old(fs.vnodes)[id].dirOffset) < FIRST ==>
              fs.mnt.vol.fat == old(fs.mnt.vol.fat)
    ensures fs.chains == old(fs.chains) - {id} && fs.vnodes == old(fs.vnodes) - {id} && fs.mnt.vol.OnDevice()
    ensures Stray(fs.mnt.vol.fat, fs.chains) == Stray(old(fs.mnt.vol.fat), old(fs.chains)) +
              if DirentCluster(old(fs.bytes)[dir], old(fs.vnodes)[id].dirOffset) < FIRST
              then Members(old(fs.chains)[id]) else {}
    ensures DirentCluster(old(fs.bytes)[dir], old(fs.vnodes)[id].dirOffset) < FIRST ==> old(fs.vnodes)[id].size == 0
  {
    hide Consistent, Clean, AllListed, DirentCluster, Overlay, Seen, Stray, Cleared, Members;
    ghost var vs, bs, ps := fs.vnodes, fs.bytes, fs.parent;
    AllListedOf(fs.mnt.vol.fat, fs.mnt.vol.data, vs, fs.chains, bs, ps);
    ListedOf(fs.mnt.vol.fat, fs.mnt.vol.data, vs, fs.chains, bs, ps, id);
    assert NamedAt(vs, bs, ps, id);
    var found := EntryCluster(fs, id);
    fs.Remove(dir, id, found);
    RemoveKeeps(vs, bs, ps, dir, id, Overlay(bs[dir], vs[id].dirOffset, [0xE5]));
    RemoveNames(vs, bs, ps, id);
    RemoveStrays(old(fs.mnt.vol.fat), old(fs.mnt.vol.data), vs, old(fs.chains), bs, ps, id);
  }

  /** Who has a directory has an entry in it. */
  lemma ListedOf(fat: seq<nat>, data: seq<seq<byte>>, vs: map<nat, Vnode>, chains: map<nat, seq<nat>>,
                 bytes: map<nat, seq<byte>>, ps: map<nat, nat>, id: nat)
    requires Consistent(fat, data, vs, chains, bytes, ps) && id in ps
    ensures id in vs && id in chains && vs[id].dirCluster >= FIRST && bytes.Keys == vs.Keys && Listed(vs, bytes, ps, id)
  {
  }

  method Perform(fs: FileSystem, op: Op) returns (r: Reply)
    requires Ready(fs)
    modifies fs, fs.mnt, fs.mnt.vol, fs.mnt.vol.cache
    ensures fs.Valid() && (!Overlong(op, r) ==> Ready(fs))
    ensures Step(old(Now(fs)), op, r, Now(fs), fs.mnt.vol.geo.clusterSize)
    ensures Accepts(r) ==> fs.mnt.vol.OnDevice()
  {
    hide Ready, FileSystem.Valid, Seen, WriteSpec, ReadSpec, Full, Cleared, DirentCluster, Created, InReach,
         Volume.OnDevice, WriteOutcome, Lengthened, Stray, StaysUsed;
    ReadyIsValid(fs);
    ghost var fat, chains := fs.mnt.vol.fat, fs.chains;
    NothingTaken(fat);
    r := Skipped;
    match op {
      case Read(id, offset, n) =>
        SeenAt(fs, id);
        if id in fs.vnodes && !fs.vnodes[id].isDir {
          var buf := DoRead(fs, id, offset, n);
          r := Data(buf);
        }
      case Write(id, offset, src) =>
        SeenAt(fs, id);
        if id in fs.vnodes && !fs.vnodes[id].isDir && InReach(offset + |src|, fs.mnt.vol.geo.clusterSize) {
          var n := DoWrite(fs, id, offset, src);
          r := Count(n);
          LengthenedLosesNone(fat, chains, fs.mnt.vol.fat, fs.chains, id);
        }
      case Create(dir, name, ntRes, id) =>
        SeenAt(fs, dir);
        SeenAt(fs, id);
        if dir in fs.vnodes && fs.vnodes[dir].isDir && id !in fs.vnodes && LegalName(name) {
          var ok := DoCreate(fs, dir, name, ntRes, id);
          r := Made(ok);
          LengthenedLosesNone(fat, chains, fs.mnt.vol.fat, fs.chains - {id}, dir);
          EmptyHoldsNone(fs.mnt.vol.fat, fs.chains, id);
        }
      case Remove(dir, id) =>
        SeenAt(fs, id);
        var at := Lists(fs, dir, id);
        if at {
          DoRemove(fs, dir, id);
          r := Gone;
        }
    }
    ReadyIsValid(fs);
  }

  lemma SeenAt(fs: FileSystem, id: nat)
    requires Ready(fs)
    ensures id in View(fs).files <==> id in fs.vnodes && !fs.vnodes[id].isDir
    ensures id in View(fs).files ==> |View(fs).files[id]| == fs.vnodes[id].size
    ensures id in View(fs).dirs <==> id in fs.vnodes && fs.vnodes[id].isDir
    ensures id in View(fs).home <==> id in fs.vnodes && !fs.vnodes[id].isDir && id in fs.parent
    ensures id in View(fs).home ==> View(fs).home[id] == fs.parent[id]
  {
    FilesAt(fs.vnodes, fs.bytes, id);
  }

  method DoRead(fs: FileSystem, id: nat, offset: nat, n: nat) returns (buf: seq<byte>)
    requires Ready(fs) && id in fs.vnodes && !fs.vnodes[id].isDir
    modifies fs.mnt.vol.cache
    ensures Ready(fs) && View(fs) == old(View(fs)) && id in View(fs).files
    ensures buf == ReadSpec(View(fs).files[id], offset, n)
  {
    hide Consistent, Named, ReadSpec, TailZero;
    FilesAt(fs.vnodes, fs.bytes, id);
    buf := fs.ReadAt(id, n, offset);
  }

  /** Whether `dir` is a directory that lists the file: the file's entry lies in the chain that starts where `dir` does.
      */
  method Lists(fs: FileSystem, dir: nat, id: nat) returns (yes: bool)
    requires Ready(fs)
    ensures yes <==> id in fs.vnodes && !fs.vnodes[id].isDir && id in fs.parent && fs.parent[id] == dir
  {
    hide Consistent, Named, TailZero, IsChain;
    ghost var fat, data, vs, ps := fs.mnt.vol.fat, fs.mnt.vol.data, fs.vnodes, fs.parent;
    KeysOf(fat, data, vs, fs.chains, fs.bytes, ps);
    if id in ps {
      ListedOf(fat, data, vs, fs.chains, fs.bytes, ps, id);
    }
    yes := && dir in fs.vnodes && id in fs.vnodes && !fs.vnodes[id].isDir && fs.vnodes[dir].isDir
           && fs.vnodes[id].dirCluster == fs.vnodes[dir].start;
    if yes {
      FactsOf(fat, data, vs, fs.chains, fs.bytes, ps, id);
      SameStart(fat, data, vs, fs.chains, fs.bytes, ps, dir, ps[id]);
    }
  }

  /** The volume after every operation of a run: each step is allowed, and keeps the plain files in step unless it is a
      write of which bytes at or behind 4 GiB are accepted. */
  ghost predicate Follows(ops: seq<Op>, rs: seq<Reply>, snaps: seq<Snap>, cs: nat) {
    && |rs| <= |ops| && |snaps| == |rs| + 1
    && forall i | 0 <= i < |rs| :: Step(snaps[i], ops[i], rs[i], snaps[i + 1], cs)
  }

  /** Whatever the operations, the volume answers as plain files would and ends as they would, up to the first write of
      which bytes at or behind 4 GiB are accepted; there it answers as they would and does not end as they would. */
  method Run(fs: FileSystem, ops: seq<Op>) returns (rs: seq<Reply>, ghost snaps: seq<Snap>)
    requires Ready(fs)
    modifies fs, fs.mnt, fs.mnt.vol, fs.mnt.vol.cache
    ensures fs.Valid() && Follows(ops, rs, snaps, fs.mnt.vol.geo.clusterSize)
    ensures snaps[0] == old(Now(fs)) && snaps[|rs|] == Now(fs)
    ensures forall i | 0 <= i < |rs| - 1 :: !Overlong(ops[i], rs[i])
    ensures |rs| < |ops| ==> rs != [] && Overlong(ops[|rs| - 1], rs[|rs| - 1])
    ensures rs == [] || !Overlong(ops[|rs| - 1], rs[|rs| - 1]) ==> Ready(fs)
  {
    hide Ready, Now, Step, Overlong;
    rs, snaps := [], [Now(fs)];
    assert Ready(fs) ==> fs.Valid() by { ReadyIsValid(fs); }
    for i := 0 to |ops|
      invariant fs.Valid() && Ready(fs) && |rs| == i
      invariant Follows(ops, rs, snaps, fs.mnt.vol.geo.clusterSize)
      invariant snaps[0] == old(Now(fs)) && snaps[i] == Now(fs)
      invariant forall j | 0 <= j < i :: !Overlong(ops[j], rs[j])
    {
      var r := Perform(fs, ops[i]);
      rs, snaps := rs + [r], snaps + [Now(fs)];
      if Overlong(ops[i], r) {
        return;
      }
    }
  }

  /** Everything asked for was done. */
  predicate InFull(op: Op, r: Reply) {
    r == Skipped || r.Data? || r == Gone || r == Made(true) || (op.Write? && r == Count(|op.src|))
  }

  /** What is in use stays in use while nothing is removed. */
  lemma {:induction false} UsedToTheEnd(ops: seq<Op>, rs: seq<Reply>, snaps: seq<Snap>, cs: nat, i: nat)
    requires Follows(ops, rs, snaps, cs) && i <= |rs|
    requires forall j | i <= j < |rs| :: rs[j] != Gone
    ensures StaysUsed(snaps[i].fat, snaps[|rs|].fat)
    decreases |rs| - i
  {
    if i < |rs| {
      assert Step(snaps[i], ops[i], rs[i], snaps[i + 1], cs);
      UsedToTheEnd(ops, rs, snaps, cs, i + 1);
    }
  }

  /** A run that ends with a free cluster refused and cut short nothing after its last removal. */
  lemma RoomMeansInFull(ops: seq<Op>, rs: seq<Reply>, snaps: seq<Snap>, cs: nat, i: nat)
    requires Follows(ops, rs, snaps, cs) && i < |rs| && !Full(snaps[|rs|].fat)
    requires forall j | i < j < |rs| :: rs[j] != Gone
    ensures InFull(ops[i], rs[i])
  {
    UsedToTheEnd(ops, rs, snaps, cs, i + 1);
    assert Step(snaps[i], ops[i], rs[i], snaps[i + 1], cs);
  }

  /** Clusters go astray only when an empty file is removed; a run that removes none loses none. */
  lemma {:induction false} NothingLost(ops: seq<Op>, rs: seq<Reply>, snaps: seq<Snap>, cs: nat, n: nat)
    requires Follows(ops, rs, snaps, cs) && n <= |rs|
    ensures snaps[0].stray <= snaps[n].stray
    ensures (forall j | 0 <= j < n :: !RemovesEmpty(snaps[j].plain, ops[j], rs[j])) ==>
              snaps[n].stray == snaps[0].stray
  {
    if n > 0 {
      NothingLost(ops, rs, snaps, cs, n - 1);
      assert Step(snaps[n - 1], ops[n - 1], rs[n - 1], snaps[n], cs);
    }
  }

  lemma ReadyIsValid(fs: FileSystem)
    ensures Ready(fs) ==> fs.Valid()
  {
  }

  // ----- what the device alone says -----

  /** Read with nothing but the bytes of the device at hand: slot `at` of the directory in chain `dirChain` leads to a
      chain whose bytes, up to the size in the slot, are `content`; or it names no cluster and `content` is empty. The
      slot starts with `head`: name, attributes and case bits. */
  ghost predicate Decodes(g: Geometry, device: seq<byte>, dirChain: seq<nat>, at: nat, head: seq<byte>,
                          content: seq<byte>)
  {
    && g.Fits(device)
    && var fat, data := FatOf(g, device), DataOf(g, device);
       && IsChain(fat, dirChain) && at + 32 <= |Flat(data, dirChain)|
       && var dir := Flat(data, dirChain);
          var c, size := DirentCluster(dir, at), DirentSize(dir, at);
          && dir[at..at + 13] == head
          && if c < FIRST then size == 0 && content == []
          else exists ch :: LeadsTo(fat, data, c, ch) && size <= |Flat(data, ch)| && content == Flat(data, ch)[..size]
  }

  ghost predicate LeadsTo(fat: seq<nat>, data: seq<seq<byte>>, c: nat, ch: seq<nat>) {
    |data| == |fat| && IsChain(fat, ch) && ch[0] == c
  }

  /** Once the cache has been written back, the device alone decodes to every listed file. */
  lemma Survives(fs: FileSystem, id: nat)
    requires Ready(fs) && fs.mnt.vol.OnDevice() && id in fs.parent && !fs.vnodes[id].isDir
    ensures id in View(fs).files && id in View(fs).heads && id in fs.vnodes && fs.parent[id] in fs.chains
    ensures Decodes(fs.mnt.vol.geo, M.FlatOf(fs.mnt.vol.cache.disks[fs.mnt.vol.dev]), fs.chains[fs.parent[id]],
                    fs.vnodes[id].dirOffset, View(fs).heads[id], View(fs).files[id])
  {
    hide M.FlatOf, Consistent, DirentCluster, DirentSize, FatOf, DataOf, Geometry.Fits, TailZero;
    var vol, p := fs.mnt.vol, fs.parent[id];
    vol.DeviceEncodes();
    ListedOf(vol.fat, vol.data, fs.vnodes, fs.chains, fs.bytes, fs.parent, id);
    FactsOf(vol.fat, vol.data, fs.vnodes, fs.chains, fs.bytes, fs.parent, id);
    FactsOf(vol.fat, vol.data, fs.vnodes, fs.chains, fs.bytes, fs.parent, p);
    FilesAt(fs.vnodes, fs.bytes, id);
    HeadsAt(fs.vnodes, fs.bytes, fs.parent, id);
    assert NamedAt(fs.vnodes, fs.bytes, fs.parent, id);
    assert fs.vnodes[id].start >= FIRST ==> LeadsTo(vol.fat, vol.data, fs.vnodes[id].start, fs.chains[id]);
  }

  /** A new file's entry names no cluster. */
  lemma CreatedNamesNone(vs: map<nat, Vnode>, bs: map<nat, seq<byte>>, vs': map<nat, Vnode>, bs': map<nat, seq<byte>>,
                         ps': map<nat, nat>, dir: nat, name: seq<byte>, ntRes: byte, id: nat)
    requires Created(vs, bs, vs', bs', ps', dir, name, ntRes, id)
    ensures id in vs' && dir in vs' && dir != id && dir in bs' && vs'[id].dirOffset + 32 <= |bs'[dir]|
    ensures vs'[id] == Vnode(0, 0, false, vs'[id].dirCluster, vs'[id].dirOffset)
    ensures DirentCluster(bs'[dir], vs'[id].dirOffset) == 0 && dir in vs && id !in vs
  {
    var grown := bs[dir] + Zeros(|bs'[dir]| - |bs[dir]|);
    NewNamesNone(grown, vs'[id].dirOffset, name, ntRes);
  }

  /** A chain holds at most the whole volume. */
  lemma ChainInVolume(fs: FileSystem, id: nat)
    requires fs.Valid() && id in fs.vnodes
    ensures id in fs.bytes && |fs.bytes[id]| <= fs.mnt.vol.geo.clusters * fs.mnt.vol.geo.clusterSize
  {
    var fat, data, cs := fs.mnt.vol.fat, fs.mnt.vol.data, fs.mnt.vol.geo.clusterSize;
    LengthOf(fat, data, fs.vnodes, fs.chains, fs.bytes, fs.parent, id, cs);
    FactsOf(fat, data, fs.vnodes, fs.chains, fs.bytes, fs.parent, id);
    if fs.chains[id] != [] {
      ChainFits(fat, fs.chains[id]);
    }
    MulMono(|fs.chains[id]|, fs.mnt.vol.geo.clusters, cs);
  }

  /** The clusters of one vnode are in use, and no other vnode has them. */
  lemma OwnClusters(fs: FileSystem, id: nat)
    requires fs.Valid() && id in fs.vnodes
    ensures id in fs.chains && (fs.vnodes[id].start >= FIRST ==> fs.chains[id] != [])
    ensures forall c | c in fs.chains[id] :: FIRST <= c < |fs.mnt.vol.fat| && fs.mnt.vol.fat[c] != FREE
    ensures forall c, o | c in fs.chains[id] && o in fs.chains && o != id :: c !in fs.chains[o]
  {
    var fat, ch := fs.mnt.vol.fat, fs.chains[id];
    FactsOf(fat, fs.mnt.vol.data, fs.vnodes, fs.chains, fs.bytes, fs.parent, id);
    forall c | c in ch
      ensures FIRST <= c < |fat| && fat[c] != FREE
    {
      var i :| 0 <= i < |ch| && ch[i] == c;
      ChainAt(fat, ch, i);
    }
    assert forall o | o in fs.chains && o != id :: Apart(ch, fs.chains[o]);
  }

  /** The leak is reachable on every volume that has a cluster left once the file exists: the file is created, a write
      behind the end of the volume takes clusters and is refused, and the file is removed. Its clusters are then neither
      free nor in the chain of any file, and the volume is full. */
  method LostClusters(fs: FileSystem, dir: nat, name: seq<byte>, ntRes: byte, id: nat, b: byte)
    returns (made: bool, n: int, ghost spare: bool, ghost lost: seq<nat>)
    requires Ready(fs) && dir in fs.vnodes && fs.vnodes[dir].isDir && id !in fs.vnodes && LegalName(name)
    modifies fs, fs.mnt, fs.mnt.vol, fs.mnt.vol.cache
    ensures Ready(fs) && (made || Full(fs.mnt.vol.fat)) && View(fs) == old(View(fs))
    ensures made ==> n == -1 && Full(fs.mnt.vol.fat)
    ensures made && spare ==> lost != []
    ensures forall c | c in lost :: FIRST <= c < |fs.mnt.vol.fat| && fs.mnt.vol.fat[c] != FREE
    ensures forall c, o | c in lost && o in fs.chains :: c !in fs.chains[o]
  {
    hide Consistent, Clean, Named, Seen, Created, WriteOutcome, DirentCluster, Full, Cleared, LegalName, Next, InReach;
    n, spare, lost := 0, false, [];
    ghost var vs0, bs0 := fs.vnodes, fs.bytes;
    made := DoCreate(fs, dir, name, ntRes, id);
    Nothing(old(View(fs)), Create(dir, name, ntRes, id), Made(false));
    if !made {
      return;
    }
    ghost var vs, bs := fs.vnodes, fs.bytes;
    CreatedNamesNone(vs0, bs0, vs, bs, fs.parent, dir, name, ntRes, id);
    spare := !Full(fs.mnt.vol.fat);
    var geo := fs.mnt.vol.geo;
    var end := geo.clusters * geo.clusterSize;
    EndInReach(geo.clusters, geo.clusterSize);
    Nothing(View(fs), Write(id, end, [b]), Count(-1));
    n := DoWrite(fs, id, end, [b]);
    ChainInVolume(fs, id);
    RefusedPastEnd(vs, bs, fs.vnodes, fs.bytes, fs.parent, fs.mnt.vol.fat, id, b, end, n, dir);
    OwnClusters(fs, id);
    lost := fs.chains[id];
    DoRemove(fs, dir, id);
    MadeAndGone(vs0, bs0, old(fs.parent), dir, name, ntRes, id);
  }

  /** Any other bytes of that length in cluster `c` change the bytes of some file or directory. */
  ghost predicate Exposed(data: seq<seq<byte>>, chains: map<nat, seq<nat>>, bytes: map<nat, seq<byte>>, c: nat, n: nat)
  {
    c < |data| && forall buf | |buf| == n && buf != data[c] :: !HoldsAfter(data, chains, bytes, c, buf)
  }

  ghost predicate HoldsAfter(data: seq<seq<byte>>, chains: map<nat, seq<nat>>, bytes: map<nat, seq<byte>>, c: nat,
                             buf: seq<byte>)
    requires c < |data|
  {
    Backed(data[c := buf], chains, bytes)
  }

  /** A vnode that is still open when its file is removed keeps its first cluster. On every volume that cluster can come
      to another owner: a file is created and written until the volume is full. A write through the old vnode would
      then change the other's bytes. */
  method StaleVnode(fs: FileSystem, dir: nat, id: nat, name: seq<byte>, ntRes: byte, other: nat, src: seq<byte>)
    returns (made: bool, n: int, ghost c: nat, ghost owner: nat)
    requires Ready(fs) && id in fs.vnodes && !fs.vnodes[id].isDir && id in fs.parent && fs.parent[id] == dir
    requires fs.vnodes[id].size > 0 && other !in fs.vnodes && LegalName(name)
    requires |src| > fs.mnt.vol.geo.clusters * fs.mnt.vol.geo.clusterSize
    requires InReach(|src|, fs.mnt.vol.geo.clusterSize)
    modifies fs, fs.mnt, fs.mnt.vol, fs.mnt.vol.cache
    ensures fs.Valid() && c == old(fs.vnodes)[id].start && owner in fs.chains && c in fs.chains[owner]
    ensures Exposed(fs.mnt.vol.data, fs.chains, fs.bytes, c, fs.mnt.vol.geo.clusterSize)
  {
    hide Ready, FileSystem.Valid, Full, LegalName, InReach, Exposed;
    c := fs.vnodes[id].start;
    RemoveFilled(fs, dir, id);
    made, n, owner := FillUp(fs, dir, name, ntRes, other, src, c);
    NowExposed(fs, c, owner);
  }

  /** Removing a file that is not empty frees its first cluster. */
  method RemoveFilled(fs: FileSystem, dir: nat, id: nat)
    requires Ready(fs) && id in fs.vnodes && !fs.vnodes[id].isDir && id in fs.parent && fs.parent[id] == dir
    requires fs.vnodes[id].size > 0
    modifies fs, fs.mnt, fs.mnt.vol, fs.mnt.vol.cache
    ensures Ready(fs) && fs.vnodes == old(fs.vnodes) - {id} && dir in fs.vnodes && fs.vnodes[dir].isDir
    ensures var c := old(fs.vnodes)[id].start; FIRST <= c < |fs.mnt.vol.fat| && fs.mnt.vol.fat[c] == FREE
  {
    hide Ready, FileSystem.Valid, Cleared, DirentCluster, Stray, Next;
    ReadyIsValid(fs);
    FirstIsChain(fs, id);
    ListedDir(fs, id);
    ClearedFrees(fs.mnt.vol.fat, fs.chains[id], fs.vnodes[id].start);
    DoRemove(fs, dir, id);
  }

  lemma ListedDir(fs: FileSystem, id: nat)
    requires Ready(fs) && id in fs.parent && id in fs.vnodes && !fs.vnodes[id].isDir
    ensures fs.parent[id] in fs.vnodes && fs.vnodes[fs.parent[id]].isDir && fs.parent[id] != id
  {
    ListedOf(fs.mnt.vol.fat, fs.mnt.vol.data, fs.vnodes, fs.chains, fs.bytes, fs.parent, id);
  }

  /** A free cluster goes to the directory or to the new file when the file is written until the volume is full. */
  method FillUp(fs: FileSystem, dir: nat, name: seq<byte>, ntRes: byte, other: nat, src: seq<byte>, ghost c: nat)
    returns (made: bool, n: int, ghost owner: nat)
    requires Ready(fs) && dir in fs.vnodes && fs.vnodes[dir].isDir && other !in fs.vnodes && LegalName(name)
    requires FIRST <= c < |fs.mnt.vol.fat| && fs.mnt.vol.fat[c] == FREE
    requires |src| > fs.mnt.vol.geo.clusters * fs.mnt.vol.geo.clusterSize
    requires InReach(|src|, fs.mnt.vol.geo.clusterSize)
    modifies fs, fs.mnt, fs.mnt.vol, fs.mnt.vol.cache
    ensures fs.Valid() && owner in fs.chains && c in fs.chains[owner] && c < |fs.mnt.vol.fat|
  {
    hide Ready, FileSystem.Valid, Created, WriteOutcome, Full, LegalName, Next, InReach, Lengthened, Volume.OnDevice,
         Seen, View, DirentCluster;
    owner, n := dir, 0;
    ghost var fat1, chains1, vs0, bs0 := fs.mnt.vol.fat, fs.chains, fs.vnodes, fs.bytes;
    made := DoCreate(fs, dir, name, ntRes, other);
    ReadyIsValid(fs);
    ghost var fat2, chains2 := fs.mnt.vol.fat, fs.chains;
    InDir(fat1, chains1, fat2, chains2, dir, other, c, made);
    if made {
      ghost var vs, bs := fs.vnodes, fs.bytes;
      CreatedNamesNone(vs0, bs0, vs, bs, fs.parent, dir, name, ntRes, other);
      n := DoWrite(fs, other, 0, src);
      ChainInVolume(fs, other);
      FillsVolume(vs, bs, fs.vnodes, fs.bytes, fs.parent, fs.mnt.vol.fat, other, src, n);
      InOther(fat2, chains2, fs.mnt.vol.fat, fs.chains, dir, other, c);
      owner := if fat2[c] == FREE then other else dir;
    }
  }

  lemma FirstIsChain(fs: FileSystem, id: nat)
    requires fs.Valid() && id in fs.vnodes && fs.vnodes[id].size > 0
    ensures id in fs.chains && fs.vnodes[id].start in fs.chains[id] && FIRST <= fs.vnodes[id].start < |fs.mnt.vol.fat|
  {
    hide AllListed;
    FactsOf(fs.mnt.vol.fat, fs.mnt.vol.data, fs.vnodes, fs.chains, fs.bytes, fs.parent, id);
    assert fs.chains[id] != [] ==> fs.chains[id][0] in fs.chains[id];
  }

  lemma ClearedFrees(fat: seq<nat>, ch: seq<nat>, c: nat)
    requires c in ch && c < |fat|
    ensures Cleared(fat, ch)[c] == FREE
  {
  }

  /** After a file was created: the cluster is free, or it is the directory's. */
  lemma InDir(fat: seq<nat>, chains: map<nat, seq<nat>>, fat': seq<nat>, chains': map<nat, seq<nat>>, dir: nat, id: nat,
              c: nat, made: bool)
    requires Lengthened(fat, chains, fat', chains' - {id}, dir) && FIRST <= c < |fat| && fat[c] == FREE
    requires !made ==> Full(fat')
    ensures |fat'| == |fat| && dir in chains' && dir != id && (!made || fat'[c] != FREE ==> c in chains'[dir])
  {
    TakenIntoChain(fat, chains, fat', chains' - {id}, dir, c);
  }

  /** After the volume was filled up: the cluster is the file's, unless it was the directory's. */
  lemma InOther(fat: seq<nat>, chains: map<nat, seq<nat>>, fat': seq<nat>, chains': map<nat, seq<nat>>, dir: nat,
                id: nat, c: nat)
    requires Lengthened(fat, chains, fat', chains', id) && FIRST <= c < |fat| && Full(fat') && dir != id
    ensures |fat'| == |fat| && (fat[c] == FREE ==> id in chains' && c in chains'[id])
    ensures dir in chains ==> dir in chains' && chains'[dir] == chains[dir]
  {
  }

  lemma FillsVolume(vs: map<nat, Vnode>, bs: map<nat, seq<byte>>, vs': map<nat, Vnode>, bs': map<nat, seq<byte>>,
                    ps: map<nat, nat>, fat': seq<nat>, id: nat, src: seq<byte>, n: int)
    requires WriteOutcome(vs, bs, vs', bs', ps, fat', id, src, 0, n) && !vs[id].isDir && |bs'[id]| < |src|
    ensures Full(fat')
  {
  }

  lemma NowExposed(fs: FileSystem, c: nat, owner: nat)
    requires fs.Valid() && owner in fs.chains && c in fs.chains[owner] && c < |fs.mnt.vol.fat|
    ensures Exposed(fs.mnt.vol.data, fs.chains, fs.bytes, c, fs.mnt.vol.geo.clusterSize)
  {
    hide Consistent, Backed;
    var vol := fs.mnt.vol;
    SameLength(vol.fat, vol.data, fs.vnodes, fs.chains, fs.bytes, fs.parent);
    forall buf | |buf| == vol.geo.clusterSize && buf != vol.data[c]
      ensures !HoldsAfter(vol.data, fs.chains, fs.bytes, c, buf)
    {
      StaleWriteIff(vol.fat, vol.data, fs.vnodes, fs.chains, fs.bytes, fs.parent, c, buf);
    }
  }

  lemma SameLength(fat: seq<nat>, data: seq<seq<byte>>, vs: map<nat, Vnode>, chains: map<nat, seq<nat>>,
                   bytes: map<nat, seq<byte>>, ps: map<nat, nat>)
    requires Consistent(fat, data, vs, chains, bytes, ps)
    ensures |fat| == |data|
  {
  }

  lemma Nothing(s: Plain, op: Op, r: Reply)
    requires r == Made(false) || r == Count(-1)
    ensures Next(s, op, r) == s
  {
  }

  lemma EndInReach(k: nat, n: nat)
    requires k < TWO32 - 1 && n > 0
    ensures InReach(k * n + 1, n)
  {
    MulMono(k + 1, TWO32 - 1, n);
  }

  lemma MadeAndGone(vs: map<nat, Vnode>, bs: map<nat, seq<byte>>, ps: map<nat, nat>, dir: nat, name: seq<byte>,
                    ntRes: byte, id: nat)
    requires id !in vs
    ensures var s := Seen(vs, bs, ps);
            Next(Next(s, Create(dir, name, ntRes, id), Made(true)), Remove(dir, id), Gone) == s
  {
    hide Seen, Files, Heads;
    var s := Seen(vs, bs, ps);
    NotThere(vs, bs, ps, id);
    AddedAndGone(s.files, id, []);
    AddedAndGone(s.home, id, dir);
    AddedAndGone(s.heads, id, name + [0x20, ntRes]);
  }

  lemma NotThere(vs: map<nat, Vnode>, bs: map<nat, seq<byte>>, ps: map<nat, nat>, id: nat)
    requires id !in vs
    ensures var s := Seen(vs, bs, ps); id !in s.files && id !in s.home && id !in s.heads
  {
  }

  lemma AddedAndGone<T>(m: map<nat, T>, id: nat, x: T)
    requires id !in m
    ensures m[id := x] - {id} == m
  {
  }

  lemma RefusedPastEnd(vs: map<nat, Vnode>, bs: map<nat, seq<byte>>, vs': map<nat, Vnode>, bs': map<nat, seq<byte>>,
                       ps: map<nat, nat>, fat': seq<nat>, id: nat, b: byte, offset: nat, n: int, dir: nat)
    requires WriteOutcome(vs, bs, vs', bs', ps, fat', id, [b], offset, n) && !vs[id].isDir && |bs'[id]| <= offset
    requires dir in vs && dir != id
    ensures n == -1 && Full(fat') && bs'[dir] == bs[dir] && vs'[id].dirOffset == vs[id].dirOffset
  {
  }
}
