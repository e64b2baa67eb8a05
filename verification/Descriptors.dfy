/** Open files, counted by the descriptors that refer to them. */
module Descriptors {

  const POOL: nat := 128
  const MAX_FILES: nat := 32
  const NULL: int := -1

  const ESRCH: int := 3
  const EBADF: int := 9
  const ENOMEM: int := 12
  const EINVAL: int := 22
  const EMFILE: int := 24

  datatype File = File(vnode: int, offset: nat, flags: nat, refcount: int)

  /** The descriptor tables of all processes, one after the other: slot `fd` of process `p` is at p * MAX_FILES + fd. */
  type Slots = seq<int>

  predicate IsProcess(slots: Slots, p: int) { 0 <= p && (p + 1) * MAX_FILES <= |slots| }

  function At(p: int, fd: int): int { p * MAX_FILES + fd }

  /** A file's count is the number of slots, in all tables, that hold it, plus the references not yet in a slot. */
  ghost predicate Counted(files: seq<File>, slots: Slots, loose: multiset<int>) {
    && |files| == POOL && |slots| % MAX_FILES == 0
    && (forall i {:trigger slots[i]} | 0 <= i < |slots| :: NULL <= slots[i] < POOL)
    && (forall f {:trigger files[f]} | 0 <= f < POOL :: files[f].refcount == multiset(slots)[f] + loose[f])
  }

  lemma SlotCounts(slots: Slots, i: nat)
    requires i < |slots|
    ensures multiset(slots)[slots[i]] > 0
  {
  }

  /** A reference in hand goes into an empty slot. */
  lemma Placed(files: seq<File>, slots: Slots, loose: multiset<int>, i: nat, f: int)
    requires Counted(files, slots, loose) && i < |slots| && slots[i] == NULL && f in loose && 0 <= f < POOL
    ensures Counted(files, slots[i := f], loose - multiset{f})
  {
  }

  /** The reference in a slot comes into hand. */
  lemma TakenOut(files: seq<File>, slots: Slots, loose: multiset<int>, i: nat)
    requires Counted(files, slots, loose) && i < |slots| && slots[i] != NULL
    ensures 0 <= slots[i] < POOL && files[slots[i]].refcount > 0
    ensures Counted(files, slots[i := NULL], loose + multiset{slots[i]})
  {
  }

  /** A reference is made or given back. */
  lemma Recount(files: seq<File>, slots: Slots, loose: multiset<int>, f: int, file: File)
    requires Counted(files, slots, loose) && 0 <= f < POOL
    ensures file.refcount == files[f].refcount + 1 ==> Counted(files[f := file], slots, loose + multiset{f})
    ensures file.refcount == files[f].refcount - 1 && f in loose ==>
            Counted(files[f := file], slots, loose - multiset{f})
  {
  }

  // ----- the life of an opening -----

  /**
    * Each file allocation is an opening with a number; `home` says where in the pool it lived. An opening is alive
    * while its file is referred to; afterwards it has been closed once, or was given up before it had a descriptor.
    */
  datatype Openings = Openings(ids: seq<int>, home: seq<int>, closed: seq<int>, dropped: seq<int>)

  ghost predicate Alive(files: seq<File>, o: Openings, id: int)
    requires |files| == POOL && |o.ids| == POOL
  {
    0 <= id < |o.home| && 0 <= o.home[id] < POOL && o.ids[o.home[id]] == id && files[o.home[id]].refcount > 0
  }

  ghost predicate NoDuplicates(l: seq<int>) { forall i, j | 0 <= i < j < |l| :: l[i] != l[j] }

  /** A file in use knows its opening, and the opening its file. */
  ghost predicate FileKnown(files: seq<File>, o: Openings, f: int)
    requires |files| == POOL && |o.ids| == POOL && 0 <= f < POOL
  {
    files[f].refcount > 0 ==> 0 <= o.ids[f] < |o.home| && o.home[o.ids[f]] == f
  }

  /** An opening is alive, or was closed, or was given up: one of the three. */
  ghost predicate Accounted(files: seq<File>, o: Openings, id: int)
    requires |files| == POOL && |o.ids| == POOL && 0 <= id < |o.home|
  {
    && 0 <= o.home[id] < POOL
    && (id in o.closed || id in o.dropped <==> !Alive(files, o, id))
    && !(id in o.closed && id in o.dropped)
  }

  ghost predicate Tracked(files: seq<File>, o: Openings) {
    && |files| == POOL && |o.ids| == POOL && NoDuplicates(o.closed) && NoDuplicates(o.dropped)
    && (forall f | 0 <= f < POOL :: FileKnown(files, o, f))
    && (forall id | 0 <= id < |o.home| :: Accounted(files, o, id))
    && (forall id {:trigger id in o.closed} | id in o.closed :: 0 <= id < |o.home|)
    && (forall id {:trigger id in o.dropped} | id in o.dropped :: 0 <= id < |o.home|)
  }

  lemma Recounted(files: seq<File>, o: Openings, f: int, n: int)
    requires Tracked(files, o) && 0 <= f < POOL && files[f].refcount > 0 && n > 0
    ensures Tracked(files[f := files[f].(refcount := n)], o)
  {
    var files' := files[f := files[f].(refcount := n)];
    forall id | 0 <= id < |o.home|
      ensures Accounted(files', o, id)
    {
      assert Accounted(files, o, id);
    }
    forall g | 0 <= g < POOL
      ensures FileKnown(files', o, g)
    {
      assert FileKnown(files, o, g);
    }
  }

  /** The file's last reference is gone. */
  lemma Ended(files: seq<File>, o: Openings, f: int, file: File, closing: bool)
    requires Tracked(files, o) && 0 <= f < POOL && files[f].refcount > 0 && file.refcount == 0
    ensures var o' := if closing then o.(closed := o.closed + [o.ids[f]]) else o.(dropped := o.dropped + [o.ids[f]]);
            Tracked(files[f := file], o')
  {
    var id := o.ids[f];
    var files' := files[f := file];
    var o' := if closing then o.(closed := o.closed + [id]) else o.(dropped := o.dropped + [id]);
    assert FileKnown(files, o, f) && Accounted(files, o, id);
    forall j | 0 <= j < |o.home|
      ensures Accounted(files', o', j)
    {
      assert Accounted(files, o, j);
      assert Alive(files', o', j) <==> Alive(files, o, j) && j != id;
    }
    forall g | 0 <= g < POOL
      ensures FileKnown(files', o', g)
    {
      assert FileKnown(files, o, g);
    }
  }

  lemma Began(files: seq<File>, o: Openings, f: int, file: File)
    requires Tracked(files, o) && 0 <= f < POOL && files[f].refcount == 0 && file.refcount == 1
    ensures Tracked(files[f := file], o.(ids := o.ids[f := |o.home|], home := o.home + [f]))
  {
    var n, files' := |o.home|, files[f := file];
    var o' := o.(ids := o.ids[f := n], home := o.home + [f]);
    assert n !in o.closed && n !in o.dropped;
    forall j | 0 <= j <= n
      ensures Accounted(files', o', j)
    {
      if j < n {
        assert Accounted(files, o, j);
        assert o'.home[j] == o.home[j];
      } else {
        assert Alive(files', o', j);
      }
    }
    forall g | 0 <= g < POOL
      ensures FileKnown(files', o', g)
    {
      assert FileKnown(files, o, g);
    }
  }

  ghost predicate TableFull(slots: Slots, p: int) {
    IsProcess(slots, p) && forall i | 0 <= i < MAX_FILES :: slots[At(p, i)] != NULL
  }

  /** Two files of the pool are free. */
  ghost predicate TwoFree(files: seq<File>) {
    exists f, g :: 0 <= f < g < |files| && files[f].refcount == 0 && files[g].refcount == 0
  }

  /** Two descriptors of `p` are free. */
  ghost predicate TwoSlots(slots: Slots, p: int) {
    IsProcess(slots, p) && exists i, j :: 0 <= i < j < MAX_FILES && slots[At(p, i)] == NULL && slots[At(p, j)] == NULL
  }

  ghost predicate PoolFull(files: seq<File>) { forall g | 0 <= g < |files| :: files[g].refcount > 0 }

  /** The slots of process `p` from `lo` on are empty. */
  ghost predicate EmptyFrom(slots: Slots, p: int, lo: int, hi: int) {
    IsProcess(slots, p) && 0 <= lo && hi <= MAX_FILES && forall fd | lo <= fd < hi :: slots[At(p, fd)] == NULL
  }

  class FileTable {
    var files: seq<File>
    var slots: Slots
    ghost var o: Openings
    /** Tables that failed forks left behind: no process has them, and nothing can close what they hold. */
    var lost: set<int>

    /** The invariant, with some references in hand. */
    ghost predicate Holds(loose: multiset<int>)
      reads this
    {
      Counted(files, slots, loose) && Tracked(files, o)
    }

    ghost predicate Valid()
      reads this
    {
      Holds(multiset{})
    }

    constructor ()
      ensures Valid() && slots == [] && lost == {}
    {
      lost := {};
      files := seq(POOL, _ => File(0, 0, 0, 0));
      slots := [];
      o := Openings(seq(POOL, _ => NULL), [], [], []);
    }

    /** The first file of the pool that nobody refers to. */
    method FileAlloc(vnode: int, flags: nat, ghost loose: multiset<int>) returns (f: int)
      requires Holds(loose)
      modifies this`files, this`o
      ensures f == NULL ==> unchanged(this) && PoolFull(files)
      ensures f != NULL ==> && 0 <= f < POOL && |old(files)| == |old(o.ids)| == POOL && old(files)[f].refcount == 0
                            && (forall g | 0 <= g < f :: old(files)[g].refcount > 0)
                            && files == old(files)[f := File(vnode, 0, flags, 1)]
                            && o == Newest(old(o), f) && Holds(loose + multiset{f})
    {
      for i := 0 to POOL
        invariant unchanged(this) && forall g | 0 <= g < i :: files[g].refcount > 0
      {
        assert files[i].refcount >= 0;
        if files[i].refcount == 0 {
          var file := File(vnode, 0, flags, 1);
          Recount(files, slots, loose, i, file);
          Began(files, o, i, file);
          files := files[i := file];
          o := Newest(o, i);
          return i;
        }
      }
      return NULL;
    }

    /** Gives back a reference; with the last one the file is closed and free. */
    method FileFree(f: int, ghost loose: multiset<int>)
      requires Holds(loose) && 0 <= f < POOL && f in loose
      modifies this`files, this`o
      ensures Holds(loose - multiset{f}) && |files| == |old(files)| == POOL
      ensures forall g | 0 <= g < POOL && g != f :: files[g] == old(files)[g]
      ensures var n := old(files)[f].refcount;
              if n > 1 then files[f] == old(files)[f].(refcount := n - 1) && o == old(o)
              else files[f] == File(NULL, 0, 0, 0) && f < |old(o.ids)| && o == Closed(old(o), f)
    {
      var n := files[f].refcount - 1;
      assert n >= 0;
      if n <= 0 {
        var file := File(NULL, 0, 0, 0);
        Recount(files, slots, loose, f, file);
        Ended(files, o, f, file, true);
        o := Closed(o, f);
        files := files[f := file];
      } else {
        var file := files[f].(refcount := n);
        Recount(files, slots, loose, f, file);
        Recounted(files, o, f, n);
        files := files[f := file];
      }
    }

    /** The lowest free descriptor of `p` refers to `f` too. */
    method FdAlloc(p: int, f: int, ghost loose: multiset<int>) returns (rc: int)
      requires Holds(loose) && (p == NULL || IsProcess(slots, p))
      requires f == NULL || (0 <= f < POOL && files[f].refcount > 0)
      modifies this`files, this`slots
      ensures Holds(loose)
      ensures p == NULL || f == NULL <==> rc == -EINVAL
      ensures rc < 0 ==> unchanged(this)
      ensures rc == -EMFILE ==> TableFull(slots, p)
      ensures rc < 0 ==> rc == -EINVAL || rc == -EMFILE
      ensures rc >= 0 ==> && rc < MAX_FILES && 0 <= f < POOL && IsProcess(old(slots), p) && |old(files)| == POOL
                          && old(slots)[At(p, rc)] == NULL && (forall i | 0 <= i < rc :: old(slots)[At(p, i)] != NULL)
                          && slots == old(slots)[At(p, rc) := f]
                          && files == old(files)[f := old(files)[f].(refcount := old(files)[f].refcount + 1)]
    {
      if p == NULL || f == NULL { return -EINVAL; }
      for i := 0 to MAX_FILES
        invariant unchanged(this) && forall j | 0 <= j < i :: slots[At(p, j)] != NULL
      {
        if slots[At(p, i)] == NULL {
          var file := files[f].(refcount := files[f].refcount + 1);
          Recount(files, slots, loose, f, file);
          Recounted(files, o, f, file.refcount);
          files := files[f := file];
          Placed(files, slots, loose + multiset{f}, At(p, i), f);
          assert loose + multiset{f} - multiset{f} == loose;
          slots := slots[At(p, i) := f];
          return i;
        }
      }
      return -EMFILE;
    }

    method FdClose(p: int, fd: int, ghost loose: multiset<int>) returns (rc: int)
      requires Holds(loose) && (p == NULL || IsProcess(slots, p))
      modifies this`files, this`slots, this`o
      ensures Holds(loose)
      ensures rc == 0 <==> p != NULL && 0 <= fd < MAX_FILES && old(slots)[At(p, fd)] != NULL
      ensures rc != 0 ==> rc == -EBADF && unchanged(this)
      ensures rc == 0 ==> Released(old(files), old(slots), old(o), files, slots, o, At(p, fd))
    {
      if p == NULL || fd < 0 || fd >= MAX_FILES { return -EBADF; }
      var f := slots[At(p, fd)];
      if f == NULL { return -EBADF; }
      TakenOut(files, slots, loose, At(p, fd));
      slots := slots[At(p, fd) := NULL];
      FileFree(f, loose + multiset{f});
      assert loose + multiset{f} - multiset{f} == loose;
      return 0;
    }

    /** A file that got no descriptor is given up without being closed. */
    method Forget(f: int, ghost loose: multiset<int>)
      requires Holds(loose) && 0 <= f < POOL && f in loose && files[f].refcount == 1
      modifies this`files, this`o
      ensures Holds(loose - multiset{f}) && f < |old(o.ids)| && o == Dropped(old(o), f)
      ensures |old(files)| == POOL && files == old(files)[f := old(files)[f].(refcount := 0)]
    {
      var file := files[f].(refcount := 0);
      Recount(files, slots, loose, f, file);
      Ended(files, o, f, file, false);
      o := Dropped(o, f);
      files := files[f := file];
    }

    /** The allocator's own reference is given back once a descriptor has taken another. */
    method Settle(f: int, ghost loose: multiset<int>)
      requires Holds(loose) && 0 <= f < POOL && f in loose && files[f].refcount == 2
      modifies this`files
      ensures Holds(loose - multiset{f}) && |old(files)| == POOL
      ensures files == old(files)[f := old(files)[f].(refcount := 1)]
    {
      var file := files[f].(refcount := files[f].refcount - 1);
      Recount(files, slots, loose, f, file);
      Recounted(files, o, f, 1);
      files := files[f := file];
    }

    /** Opens a vnode: one new file with one descriptor, or nothing but a gap in the numbering. */
    method Open(p: int, vnode: int, flags: nat) returns (rc: int)
      requires Valid() && (p == NULL || IsProcess(slots, p))
      modifies this`files, this`slots, this`o
      ensures Valid()
      ensures rc < 0 ==> slots == old(slots) && SameCounts(old(files), files) && o.closed == old(o.closed)
      ensures rc < 0 <==> PoolFull(old(files)) || p == NULL || TableFull(old(slots), p)
      ensures rc < 0 ==> rc == if PoolFull(old(files)) then -ENOMEM else if p == NULL then -ESRCH else -EMFILE
      ensures rc >= 0 ==> && rc < MAX_FILES && IsProcess(slots, p) && |files| == POOL
                          && old(slots)[At(p, rc)] == NULL && slots == old(slots)[At(p, rc) := slots[At(p, rc)]]
                          && var f := slots[At(p, rc)];
                             && 0 <= f < POOL && f !in old(slots) && files[f] == File(vnode, 0, flags, 1)
                             && f < |old(o.ids)| && o == Newest(old(o), f)
    {
      hide Tracked;
      var f := FileAlloc(vnode, flags, multiset{});
      if f == NULL { return -ENOMEM; }
      if p == NULL {
        Forget(f, multiset{f});
        return -ESRCH;
      }
      rc := FdAlloc(p, f, multiset{f});
      if rc < 0 {
        Forget(f, multiset{f});
        return rc;
      }
      Settle(f, multiset{f});
    }

    method Dup(p: int, fd: int) returns (rc: int)
      requires Valid() && (p == NULL || IsProcess(slots, p))
      modifies this`files, this`slots, this`o
      ensures Valid() && o == old(o)
      ensures rc < 0 ==> unchanged(this)
      ensures rc == -EBADF <==> p == NULL || !(0 <= fd < MAX_FILES) || old(slots)[At(p, fd)] == NULL
      ensures rc < 0 && rc != -EBADF ==> rc == -EMFILE && TableFull(slots, p)
      ensures rc >= 0 ==> !TableFull(old(slots), p)
      ensures rc >= 0 ==> && rc < MAX_FILES && IsProcess(old(slots), p) && 0 <= fd < MAX_FILES
                          && old(slots)[At(p, rc)] == NULL
                          && slots == old(slots)[At(p, rc) := old(slots)[At(p, fd)]]
    {
      if p == NULL || fd < 0 || fd >= MAX_FILES { return -EBADF; }
      var f := slots[At(p, fd)];
      if f == NULL { return -EBADF; }
      SlotCounts(slots, At(p, fd));
      rc := FdAlloc(p, f, multiset{});
    }

    /** A forked process shares all open files of its parent. */
    method Clone(parent: int, child: int)
      requires Valid() && IsProcess(slots, parent) && EmptyFrom(slots, child, 0, MAX_FILES) && parent != child
      modifies this`files, this`slots, this`o
      ensures Valid() && o == old(o) && |slots| == |old(slots)|
      ensures forall fd | 0 <= fd < MAX_FILES :: slots[At(child, fd)] == old(slots)[At(parent, fd)]
      ensures forall i | 0 <= i < |slots| && !(At(child, 0) <= i < At(child, MAX_FILES)) :: slots[i] == old(slots)[i]
    {
      hide Tracked;
      for i := 0 to MAX_FILES
        invariant Valid() && o == old(o) && |slots| == |old(slots)|
        invariant forall fd | 0 <= fd < i :: slots[At(child, fd)] == old(slots)[At(parent, fd)]
        invariant forall j | 0 <= j < |slots| && !(At(child, 0) <= j < At(child, i)) :: slots[j] == old(slots)[j]
      {
        var f := slots[At(parent, i)];
        if f != NULL {
          Share(f, At(child, i));
        }
      }
    }

    /** One more reference to `f`, in the empty slot `i`. */
    method Share(f: int, i: nat)
      requires Valid() && i < |slots| && slots[i] == NULL && f in slots && f != NULL
      modifies this`files, this`slots
      ensures Valid() && slots == old(slots)[i := f]
    {
      ghost var j :| 0 <= j < |slots| && slots[j] == f;
      SlotCounts(slots, j);
      var file := files[f].(refcount := files[f].refcount + 1);
      Recount(files, slots, multiset{}, f, file);
      Recounted(files, o, f, file.refcount);
      files := files[f := file];
      Placed(files, slots, multiset{f}, i, f);
      assert multiset{} + multiset{f} == multiset{f} && multiset{f} - multiset{f} == multiset{};
      slots := slots[i := f];
    }

    /** Closes the descriptors of `p` from `lo` on: all of them when it is reaped, from 3 on in exec. */
    method CloseFrom(p: int, lo: nat)
      requires Valid() && (p != NULL ==> IsProcess(slots, p)) && lo <= MAX_FILES
      modifies this`files, this`slots, this`o
      ensures Valid() && |slots| == |old(slots)| && old(o.closed) <= o.closed && o == old(o).(closed := o.closed)
      ensures p == NULL ==> unchanged(this)
      ensures p != NULL ==> EmptyFrom(slots, p, lo, MAX_FILES)
      ensures p != NULL ==> forall i | 0 <= i < |slots| && !(At(p, lo) <= i < At(p, MAX_FILES)) ::
              slots[i] == old(slots)[i]
    {
      hide Tracked;
      if p == NULL { return; }
      for i := lo to MAX_FILES
        invariant Valid() && |slots| == |old(slots)| && old(o.closed) <= o.closed && o == old(o).(closed := o.closed)
        invariant EmptyFrom(slots, p, lo, i)
        invariant forall j | 0 <= j < |slots| && !(At(p, lo) <= j < At(p, i)) :: slots[j] == old(slots)[j]
      {
        if slots[At(p, i)] != NULL {
          var rc := FdClose(p, i, multiset{});
        }
      }
    }

    /** A new process has a table of empty slots. */
    method NewProcess() returns (p: int)
      requires Valid()
      modifies this`slots
      ensures Valid() && p * MAX_FILES == |old(slots)| && |slots| == |old(slots)| + MAX_FILES && old(slots) <= slots
      ensures EmptyFrom(slots, p, 0, MAX_FILES)
    {
      p := |slots| / MAX_FILES;
      NewTable(files, slots);
      slots := slots + seq(MAX_FILES, _ => NULL);
    }

    /** Standard input, output and error of a new process: three files on the console, as long as the pool has any. */
    method InitStdio(p: int)
      requires Valid() && (p != NULL ==> EmptyFrom(slots, p, 0, 3))
      modifies this`files, this`slots, this`o
      ensures Valid() && |slots| == |old(slots)| && o.closed == old(o.closed) && o.dropped == old(o.dropped)
      ensures p == NULL ==> unchanged(this)
      ensures p != NULL ==> forall i | 0 <= i < |slots| && !(At(p, 0) <= i < At(p, 3)) :: slots[i] == old(slots)[i]
      ensures p != NULL ==> forall fd | 0 <= fd < 3 :: OnConsole(old(slots), files, slots, At(p, fd), StdFlags(fd))
      ensures p != NULL ==>
                && OnConsole(old(slots), files, slots, At(p, 0), 0)  // O_RDONLY
                && OnConsole(old(slots), files, slots, At(p, 1), 1)  // O_WRONLY
                && OnConsole(old(slots), files, slots, At(p, 2), 1)
    {
      hide Tracked, Counted;
      if p == NULL { return; }
      Console(p, 0, StdFlags(0));
      ghost var f1, s1 := files, slots;
      Console(p, 1, StdFlags(1));
      OnConsoleKept(old(slots), f1, s1, files, slots, At(p, 0), StdFlags(0));
      ghost var f2, s2 := files, slots;
      Console(p, 2, StdFlags(2));
      OnConsoleKept(old(slots), f2, s2, files, slots, At(p, 0), StdFlags(0));
      OnConsoleKept(s1, f2, s2, files, slots, At(p, 1), StdFlags(1));
      OnConsoleOlder(old(slots), s1, files, slots, At(p, 1), StdFlags(1));
      OnConsoleOlder(old(slots), s2, files, slots, At(p, 2), StdFlags(2));
    }

    method Console(p: int, fd: int, flags: nat)
      requires Valid() && EmptyFrom(slots, p, fd, fd + 1)
      modifies this`files, this`slots, this`o
      ensures Valid() && |slots| == |old(slots)| && o.closed == old(o.closed) && o.dropped == old(o.dropped)
      ensures forall i | 0 <= i < |slots| && i != At(p, fd) :: slots[i] == old(slots)[i]
      ensures OnConsole(old(slots), files, slots, At(p, fd), flags) && KeptInUse(old(files), files)
    {
      var f := FileAlloc(TTY_VNODE, flags, multiset{});
      if f != NULL {
        FreeUnused(old(files), slots, multiset{}, f);
        assert multiset{} + multiset{f} == multiset{f} && multiset{f} - multiset{f} == multiset{};
        Placed(files, slots, multiset{f}, At(p, fd), f);
        slots := slots[At(p, fd) := f];
      }
    }

    /** Two new files, one for each end; `ring` says whether a ring and two vnodes were to be had. It fails exactly when
        one of these, the files or the descriptors are short, and then every count is as before. */
    method PipeCreate(p: int, ring: bool, rdVnode: int, wrVnode: int) returns (rc: int, rfd: int, wfd: int)
      requires Valid() && (p == NULL || IsProcess(slots, p))
      modifies this`files, this`slots, this`o
      ensures Valid() && old(o.closed) <= o.closed
      ensures rc == if p == NULL then -EINVAL
                    else if !ring || !TwoFree(old(files)) then -ENOMEM
                    else if !TwoSlots(old(slots), p) then -EMFILE else 0
      ensures rc < 0 ==> slots == old(slots) && SameCounts(old(files), files)
      ensures rc == 0 ==> && IsProcess(old(slots), p) && 0 <= rfd < MAX_FILES && 0 <= wfd < MAX_FILES && rfd != wfd
                          && |slots| == |old(slots)| && |files| == POOL
                          && var rf, wf := slots[At(p, rfd)], slots[At(p, wfd)];
                             && slots == old(slots)[At(p, rfd) := rf][At(p, wfd) := wf]
                             && old(slots)[At(p, rfd)] == NULL == old(slots)[At(p, wfd)] && rf !in old(slots)
                                   && wf !in old(slots)
                             && 0 <= rf < POOL && 0 <= wf < POOL && rf != wf
                             && files[rf] == File(rdVnode, 0, O_RDONLY, 1) && files[wf] == File(wrVnode, 0, O_WRONLY, 1)
    {
      hide Tracked, Counted;
      rfd, wfd := -1, -1;
      if p == NULL { return -EINVAL, rfd, wfd; }
      if !ring { return -ENOMEM, rfd, wfd; }
      CountsBound(files, slots, multiset{});
      var rf := FileAlloc(rdVnode, O_RDONLY, multiset{});
      if rf == NULL {
        var none := FileAlloc(wrVnode, O_WRONLY, multiset{});
        return -ENOMEM, rfd, wfd;
      }
      FreeUnused(old(files), slots, multiset{}, rf);
      assert multiset{} + multiset{rf} == multiset{rf} && multiset{rf} - multiset{rf} == multiset{};
      ghost var was := files;
      var wf := FileAlloc(wrVnode, O_WRONLY, multiset{rf});
      if wf == NULL {
        Forget(rf, multiset{rf});
        return -ENOMEM, rfd, wfd;
      }
      assert TwoFree(old(files)) by { assert old(files)[rf].refcount == 0 && old(files)[wf].refcount == 0; }
      FreeUnused(was, slots, multiset{rf}, wf);
      assert multiset{rf} + multiset{wf} == multiset{rf, wf};
      var r, w := Install(p, rf, wf);
      if r < 0 || w < 0 { return if r < 0 then r else w, r, w; }
      return 0, r, w;
    }

    method Install(p: int, rf: int, wf: int) returns (rfd: int, wfd: int)
      requires Holds(multiset{rf, wf}) && IsProcess(slots, p) && 0 <= rf < POOL && 0 <= wf < POOL && rf != wf
      requires files[rf].refcount == 1 && files[wf].refcount == 1
      modifies this`files, this`slots, this`o
      ensures Valid() && old(o.closed) <= o.closed && |files| == POOL == |old(files)|
      ensures rfd >= 0 && wfd >= 0 <==> TwoSlots(old(slots), p)
      ensures rfd < 0 || wfd < 0 ==> && slots == old(slots) && (if rfd < 0 then rfd else wfd) == -EMFILE
                                     && files[rf].refcount == 0 == files[wf].refcount
                                     && forall f | 0 <= f < POOL && f != rf && f != wf :: files[f] == old(files)[f]
      ensures rfd >= 0 && wfd >= 0 ==>
                && rfd < MAX_FILES && wfd < MAX_FILES && rfd != wfd
                      && slots == old(slots)[At(p, rfd) := rf][At(p, wfd) := wf]
                && old(slots)[At(p, rfd)] == NULL == old(slots)[At(p, wfd)]
                && files == old(files)
    {
      hide Tracked, Counted;
      wfd := -1;
      assert multiset{wf} - multiset{wf} == multiset{};
      rfd := FdAlloc(p, rf, multiset{rf, wf});
      if rfd < 0 {
        Forget(rf, multiset{rf, wf});
        assert multiset{rf, wf} - multiset{rf} == multiset{wf};
        Forget(wf, multiset{wf});
        return;
      }
      Settle(rf, multiset{rf, wf});
      assert multiset{rf, wf} - multiset{rf} == multiset{wf};
      wfd := FdAlloc(p, wf, multiset{wf});
      if wfd < 0 {
        var rc := FdClose(p, rfd, multiset{wf});
        Forget(wf, multiset{wf});
        return;
      }
      Settle(wf, multiset{wf});
      assert files == old(files);
      assert TwoSlots(old(slots), p) by { assert old(slots)[At(p, rfd)] == NULL && old(slots)[At(p, wfd)] == NULL; }
    }

    ghost function State(): Plain
      reads this
    {
      Plain(files, slots, lost, o)
    }

    /** Any run of these operations does to the tables what each operation says, keeps every count right over all
        tables, those of failed forks among them, and never closes an opening a second time. */
    method Run(ops: seq<Op>) returns (ghost states: seq<Plain>)
      requires Valid() && Known(slots, lost)
      modifies this
      ensures Valid() && Known(slots, lost) && |states| == |ops| + 1 && states[0] == old(State()) && states[|ops|]
              == State()
      ensures forall i | 0 <= i < |ops| :: Stepped(ops[i], states[i], states[i + 1])
      ensures old(o.closed) <= o.closed && LostStay(old(State()), State())
    {
      hide Tracked, Counted, Stepped, LostStay, Known;
      states := [State()];
      StaysSelf(State());
      for i := 0 to |ops|
        invariant Valid() && Known(slots, lost) && old(o.closed) <= o.closed && LostStay(old(State()), State())
        invariant |states| == i + 1 && states[0] == old(State()) && states[i] == State()
        invariant forall j | 0 <= j < i :: Stepped(ops[j], states[j], states[j + 1])
      {
        ghost var was := State();
        Perform(ops[i]);
        StaysOn(old(State()), was, State());
        states := states + [State()];
      }
    }

    method Perform(op: Op)
      requires Valid() && Known(slots, lost)
      modifies this
      ensures Valid() && Known(slots, lost) && Stepped(op, old(State()), State())
      ensures old(o.closed) <= o.closed && LostStay(old(State()), State())
    {
      hide Tracked, Counted, Stepped, LostStay, Known;
      if op.Create? || op.Fork? {
        NewTables(op);
      } else if op.Exec? || op.Reap? || op.Pipe? {
        ManySlots(op);
      } else {
        OneSlot(op);
      }
    }

    method NewTables(op: Op)
      requires op.Create? || op.Fork?
      requires Valid() && Known(slots, lost)
      modifies this
      ensures Valid() && Known(slots, lost) && Stepped(op, old(State()), State())
      ensures old(o.closed) <= o.closed && LostStay(old(State()), State())
    {
      hide Tracked, Counted, PoolFull;
      ghost var was := State();
      StaysSelf(was);
      if op.Create? {
        var p := NewProcess();
        ghost var mid := slots;
        InitStdio(p);
        forall fd | 0 <= fd < 3
          ensures OnConsole(was.slots, files, slots, |was.slots| + fd, StdFlags(fd))
        {
          assert At(p, fd) == |was.slots| + fd;
          OnConsoleOlder(was.slots, mid, files, slots, At(p, fd), StdFlags(fd));
        }
        forall i | |was.slots| + 3 <= i < |slots|
          ensures slots[i] == NULL
        {
          assert i == At(p, i - |was.slots|) && mid[i] == NULL;
        }
      } else if Live(slots, lost, op.parent) {
        var child := NewProcess();
        Clone(op.parent, child);
        ForkedTable(was.slots, slots, op.parent, child);
        if !op.ok { lost := lost + {child}; }
      }
    }

    method OneSlot(op: Op)
      requires op.Open? || op.Dup? || op.Close?
      requires Valid() && Known(slots, lost)
      modifies this
      ensures Valid() && Known(slots, lost) && Stepped(op, old(State()), State())
      ensures old(o.closed) <= o.closed && LostStay(old(State()), State())
    {
      hide Tracked, Counted, Closed, TableFull, PoolFull;
      ghost var was := State();
      StaysSelf(was);
      if !Live(slots, lost, op.p) { return; }
      if op.Open? {
        var rc := Open(op.p, op.vnode, op.flags);
      } else if op.Dup? {
        var rc := Dup(op.p, op.fd);
      } else {
        var rc := FdClose(op.p, op.fd, multiset{});
        ClosedGrows(was.files, was.slots, was.o, files, slots, o, At(op.p, op.fd));
      }
      StaysBeside(was, State(), op.p);
    }

    method ManySlots(op: Op)
      requires op.Exec? || op.Reap? || op.Pipe?
      requires Valid() && Known(slots, lost)
      modifies this
      ensures Valid() && Known(slots, lost) && Stepped(op, old(State()), State())
      ensures old(o.closed) <= o.closed && LostStay(old(State()), State())
    {
      hide Tracked, Counted, Closed, LostStay;
      ghost var was := State();
      StaysSelf(was);
      if !Live(slots, lost, op.p) { return; }
      if op.Pipe? {
        var rc, r, w := PipeCreate(op.p, op.ring, op.rd, op.wr);
      } else {
        CloseFrom(op.p, if op.Exec? then 3 else 0);
      }
      StaysBeside(was, State(), op.p);
    }
  }

  datatype Op = Create | Fork(parent: int, ok: bool) | Open(p: int, vnode: int, flags: nat) | Dup(p: int, fd: int)
              | Close(p: int, fd: int) | Exec(p: int) | Reap(p: int) | Pipe(p: int, ring: bool, rd: int, wr: int)

  datatype Plain = Plain(files: seq<File>, slots: Slots, lost: set<int>, o: Openings)

  /** A table that some process has. */
  predicate Live(slots: Slots, lost: set<int>, p: int): (r: bool)
    ensures r <==> 0 <= p < |slots| / MAX_FILES && p !in lost
  {
    0 <= p && (p + 1) * MAX_FILES <= |slots| && p !in lost
  }

  ghost predicate Known(slots: Slots, lost: set<int>) { forall p | p in lost :: IsProcess(slots, p) }

  function TableOf(i: int): int { i / MAX_FILES }

  /** The tables of failed forks are never touched again. */
  ghost predicate LostStay(s: Plain, s': Plain) {
    && s.lost <= s'.lost && |s.slots| <= |s'.slots|
    && forall i {:trigger s'.slots[i]} | 0 <= i < |s.slots| && TableOf(i) in s.lost :: s'.slots[i] == s.slots[i]
  }

  lemma StaysSelf(s: Plain)
    ensures LostStay(s, s)
  {
  }

  /** What changes in the table of a process changes nothing there. */
  lemma StaysBeside(s: Plain, s': Plain, p: int)
    requires |s'.slots| == |s.slots| && s'.lost == s.lost && p !in s.lost
    requires forall i | 0 <= i < |s.slots| && !(At(p, 0) <= i < At(p, MAX_FILES)) :: s'.slots[i] == s.slots[i]
    ensures LostStay(s, s')
  {
    assert forall i {:trigger TableOf(i)} :: At(p, 0) <= i < At(p, MAX_FILES) ==> TableOf(i) == p;
  }

  lemma StaysOn(s: Plain, t: Plain, u: Plain)
    requires LostStay(s, t) && LostStay(t, u)
    ensures LostStay(s, u)
  {
    forall i | 0 <= i < |s.slots| && TableOf(i) in s.lost
      ensures u.slots[i] == s.slots[i]
    {
      assert t.slots[i] == s.slots[i];
    }
  }

  /** The table of a new child is its parent's. */
  ghost predicate Copied(slots: Slots, slots': Slots, parent: int) {
    && IsProcess(slots, parent) && |slots'| == |slots| + MAX_FILES && slots <= slots'
    && forall fd | 0 <= fd < MAX_FILES :: slots'[|slots| + fd] == slots[At(parent, fd)]
  }

  lemma ForkedTable(slots: Slots, slots': Slots, parent: int, child: int)
    requires IsProcess(slots, parent) && child * MAX_FILES == |slots| && |slots'| == |slots| + MAX_FILES
    requires forall i | 0 <= i < |slots| :: slots'[i] == slots[i]
    requires forall fd | 0 <= fd < MAX_FILES :: slots'[At(child, fd)] == slots[At(parent, fd)]
    ensures Copied(slots, slots', parent)
  {
    assert slots'[..|slots|] == slots;
    forall fd | 0 <= fd < MAX_FILES
      ensures slots'[|slots| + fd] == slots[At(parent, fd)]
    {
      assert At(child, fd) == |slots| + fd;
    }
  }

  /** What an operation does to the tables, and when it does nothing. */
  ghost predicate Stepped(op: Op, s: Plain, s': Plain) {
    match op
    case Create =>
      && s'.lost == s.lost && |s'.slots| == |s.slots| + MAX_FILES && s.slots <= s'.slots
      && (forall fd | 0 <= fd < 3 :: OnConsole(s.slots, s'.files, s'.slots, |s.slots| + fd, StdFlags(fd)))
      && (forall i | |s.slots| + 3 <= i < |s'.slots| :: s'.slots[i] == NULL)
    case Fork(parent, ok) =>
      if !Live(s.slots, s.lost, parent) then s' == s
      else && Copied(s.slots, s'.slots, parent) && s'.o == s.o
           && s'.lost == if ok then s.lost else s.lost + {TableOf(|s.slots|)}
    case Open(p, vnode, flags) =>
      if !Live(s.slots, s.lost, p) then s' == s
      else && s'.lost == s.lost
           && if PoolFull(s.files) || TableFull(s.slots, p) then s'.slots == s.slots && SameCounts(s.files, s'.files)
              else exists fd | 0 <= fd < MAX_FILES :: OpenedAt(s, s', At(p, fd), vnode, flags)
    case Dup(p, fd) =>
      if !Live(s.slots, s.lost, p) || !(0 <= fd < MAX_FILES) || s.slots[At(p, fd)] == NULL || TableFull(s.slots, p)
          then s' == s
      else && s'.lost == s.lost && s'.o == s.o
           && exists to | 0 <= to < MAX_FILES :: s.slots[At(p, to)] == NULL
                 && s'.slots == s.slots[At(p, to) := s.slots[At(p, fd)]]
    case Close(p, fd) =>
      if !Live(s.slots, s.lost, p) || !(0 <= fd < MAX_FILES) || s.slots[At(p, fd)] == NULL then s' == s
      else s'.lost == s.lost && Released(s.files, s.slots, s.o, s'.files, s'.slots, s'.o, At(p, fd))
    case Exec(p) => if !Live(s.slots, s.lost, p) then s' == s else s'.lost == s.lost && Emptied(s.slots, s'.slots, p, 3)
    case Reap(p) => if !Live(s.slots, s.lost, p) then s' == s else s'.lost == s.lost && Emptied(s.slots, s'.slots, p, 0)
    case Pipe(p, ring, rd, wr) =>
      if !Live(s.slots, s.lost, p) then s' == s
      else && s'.lost == s.lost
           && if !ring || !TwoFree(s.files) || !TwoSlots(s.slots, p)
              then s'.slots == s.slots && SameCounts(s.files, s'.files)
              else exists r, w | 0 <= r < MAX_FILES && 0 <= w < MAX_FILES && r != w ::
                  PipedAt(s, s', At(p, r), At(p, w), rd, wr)
  }

  ghost predicate Emptied(slots: Slots, slots': Slots, p: int, lo: int) {
    && |slots'| == |slots| && EmptyFrom(slots', p, lo, MAX_FILES)
    && forall i | 0 <= i < |slots| && !(At(p, lo) <= i < At(p, MAX_FILES)) :: slots'[i] == slots[i]
  }

  /** Slot `i`, which was empty, holds a file that no slot held. */
  ghost predicate OpenedAt(s: Plain, s': Plain, i: int, vnode: int, flags: nat) {
    && 0 <= i < |s.slots| == |s'.slots| && s.slots[i] == NULL && s'.slots == s.slots[i := s'.slots[i]]
    && s'.slots[i] !in s.slots && 0 <= s'.slots[i] < |s'.files| && s'.files[s'.slots[i]] == File(vnode, 0, flags, 1)
  }

  ghost predicate PipedAt(s: Plain, s': Plain, r: int, w: int, rd: int, wr: int) {
    && 0 <= r < |s.slots| == |s'.slots| && 0 <= w < |s.slots| && s.slots[r] == NULL == s.slots[w]
    && var rf, wf := s'.slots[r], s'.slots[w];
       && s'.slots == s.slots[r := rf][w := wf] && rf !in s.slots && wf !in s.slots && rf != wf
       && 0 <= rf < |s'.files| && 0 <= wf < |s'.files|
       && s'.files[rf] == File(rd, 0, O_RDONLY, 1) && s'.files[wf] == File(wr, 0, O_WRONLY, 1)
  }

  // ----- what a failed fork leaves -----

  /** The slots that processes have, the others shown empty. */
  ghost function Held(slots: Slots, lost: set<int>): (r: Slots)
    ensures |r| == |slots|
  {
    seq(|slots|, i requires 0 <= i < |slots| => if TableOf(i) in lost then NULL else slots[i])
  }

  /** As many live slots as slots, for a file, exactly when no table of a failed fork holds it. */
  lemma {:induction false} HeldIff(slots: Slots, lost: set<int>, f: int)
    requires f != NULL
    ensures multiset(Held(slots, lost))[f] <= multiset(slots)[f]
    ensures multiset(Held(slots, lost))[f] == multiset(slots)[f] <==>
            forall i | 0 <= i < |slots| && TableOf(i) in lost :: slots[i] != f
  {
    if slots != [] {
      var n := |slots| - 1;
      var t, x := slots[..n], slots[n];
      HeldIff(t, lost, f);
      assert slots == t + [x];
      var y := if TableOf(n) in lost then NULL else x;
      assert Held(slots, lost) == Held(t, lost) + [y];
    }
  }

  /** A file's count is the number of slots that processes have for it if and only if no failed fork cloned a table that
      held it. Otherwise it is higher, for good. */
  lemma CountIsLiveIff(files: seq<File>, slots: Slots, lost: set<int>, f: int)
    requires Counted(files, slots, multiset{}) && 0 <= f < POOL
    ensures files[f].refcount >= multiset(Held(slots, lost))[f]
    ensures files[f].refcount == multiset(Held(slots, lost))[f] <==>
            forall i | 0 <= i < |slots| && TableOf(i) in lost :: slots[i] != f
  {
    HeldIff(slots, lost, f);
  }

  /** An opening that a failed fork's table holds is not closed, whatever is done afterwards. */
  lemma NeverClosed(s: Plain, s': Plain, i: int, id: int)
    requires LostStay(s, s') && 0 <= i < |s.slots| && TableOf(i) in s.lost
    requires Counted(s'.files, s'.slots, multiset{}) && Tracked(s'.files, s'.o)
    requires RefersTo(s'.o, s.slots[i], id)
    ensures id !in s'.o.closed
  {
    assert s'.slots[i] == s.slots[i];
    SlotCounts(s'.slots, i);
    assert FileKnown(s'.files, s'.o, s'.slots[i]);
    assert Accounted(s'.files, s'.o, id);
  }

  /** From any state: a process opens a file, fails to fork and is reaped. Nobody has the file any more, and it was not
      closed; by NeverClosed it never will be. */
  method FailedForkLeaks(t: FileTable, p: int, vnode: int, flags: nat) returns (rc: int, ghost id: int)
    requires t.Valid() && Known(t.slots, t.lost) && Live(t.slots, t.lost, p)
    modifies t
    ensures t.Valid() && Known(t.slots, t.lost) && id == |old(t.o.home)|
    ensures rc >= 0 ==> id < |t.o.home| && id !in t.o.closed && id !in t.o.dropped
    ensures rc >= 0 ==> forall i | 0 <= i < |t.slots| && TableOf(i) !in t.lost :: !RefersTo(t.o, t.slots[i], id)
  {
    hide Tracked, Counted;
    id := |t.o.home|;
    rc := t.Open(p, vnode, flags);
    if rc < 0 { return; }
    ghost var f, was := t.slots[At(p, rc)], t.slots;
    var child := t.NewProcess();
    t.Clone(p, child);
    t.lost := t.lost + {child};
    ghost var mid := t.State();
    t.CloseFrom(p, 0);
    TablesApart(p, child, rc, |was|);
    HeldBySome(t.files, t.slots, t.o, At(child, rc), id);
    forall i | 0 <= i < |t.slots| && TableOf(i) !in t.lost
      ensures !RefersTo(t.o, t.slots[i], id)
    {
      if TableOf(i) == p {
        assert EmptyFrom(t.slots, p, 0, MAX_FILES) && i == At(p, i - At(p, 0));
      } else {
        assert i < |was| && t.slots[i] == was[i] && i != At(p, rc);
        assert was[i] == old(t.slots)[i];
      }
      OnlyFile(t.files, t.slots, t.o, i, f, id);
    }
  }

  lemma TablesApart(p: int, q: int, fd: int, n: nat)
    requires 0 <= fd < MAX_FILES && 0 <= p && (p + 1) * MAX_FILES <= n && q * MAX_FILES == n
    ensures TableOf(At(p, fd)) == p && TableOf(At(q, fd)) == q && p != q
    ensures forall i {:trigger TableOf(i)} :: TableOf(i) == p <==> At(p, 0) <= i < At(p, MAX_FILES)
    ensures forall i {:trigger TableOf(i)} :: TableOf(i) == q <==> At(q, 0) <= i < At(q, MAX_FILES)
  {
  }

  /** An opening that a slot refers to is alive. */
  lemma HeldBySome(files: seq<File>, slots: Slots, o: Openings, i: int, id: int)
    requires Counted(files, slots, multiset{}) && Tracked(files, o) && 0 <= i < |slots| && slots[i] != NULL
    requires 0 <= slots[i] < |o.ids| && o.ids[slots[i]] == id
    ensures 0 <= id < |o.home| && o.home[id] == slots[i] && id !in o.closed && id !in o.dropped
  {
    SlotCounts(slots, i);
    assert FileKnown(files, o, slots[i]);
    assert Accounted(files, o, id);
  }

  /** Only slots with the file of an opening refer to it. */
  lemma OnlyFile(files: seq<File>, slots: Slots, o: Openings, i: int, f: int, id: int)
    requires Counted(files, slots, multiset{}) && Tracked(files, o) && 0 <= i < |slots|
    requires 0 <= id < |o.home| && o.home[id] == f && slots[i] != f
    ensures !RefersTo(o, slots[i], id)
  {
    if slots[i] != NULL {
      SlotCounts(slots, i);
      assert FileKnown(files, o, slots[i]);
    }
  }

  lemma ClosedGrows(files: seq<File>, slots: Slots, o: Openings, files': seq<File>, slots': Slots, o': Openings, i: int)
    requires o' == o || Released(files, slots, o, files', slots', o', i)
    ensures o.closed <= o'.closed
  {
  }

  const TTY_VNODE: int := 0
  const O_RDONLY: nat := 0
  const O_WRONLY: nat := 1

  lemma NewTable(files: seq<File>, slots: Slots)
    requires Counted(files, slots, multiset{})
    ensures Counted(files, slots + seq(MAX_FILES, _ => NULL), multiset{})
  {
  }

  function StdFlags(fd: int): nat { if fd == 0 then O_RDONLY else O_WRONLY }

  /** Slot `i` holds a file of its own on the console, or the pool has none left. */
  ghost predicate OnConsole(slots: Slots, files': seq<File>, slots': Slots, i: int, flags: nat) {
    && 0 <= i < |slots'|
    && if slots'[i] == NULL then PoolFull(files')
       else slots'[i] !in slots && 0 <= slots'[i] < |files'| && files'[slots'[i]] == File(TTY_VNODE, 0, flags, 1)
  }

  /** Files in use stay as they are. */
  ghost predicate KeptInUse(files: seq<File>, files': seq<File>) {
    |files| == |files'| && forall f | 0 <= f < |files| && files[f].refcount > 0 :: files'[f] == files[f]
  }

  lemma OnConsoleKept(slots: Slots, files1: seq<File>, slots1: Slots, files2: seq<File>, slots2: Slots, i: int,
                      flags: nat)
    requires OnConsole(slots, files1, slots1, i, flags) && KeptInUse(files1, files2)
    requires i < |slots2| && slots2[i] == slots1[i]
    ensures OnConsole(slots, files2, slots2, i, flags)
  {
  }

  lemma OnConsoleOlder(slots: Slots, slots1: Slots, files2: seq<File>, slots2: Slots, i: int, flags: nat)
    requires OnConsole(slots1, files2, slots2, i, flags)
    requires forall f | f in slots && f != NULL :: f in slots1
    ensures OnConsole(slots, files2, slots2, i, flags)
  {
  }

  lemma CountsBound(files: seq<File>, slots: Slots, loose: multiset<int>)
    requires Counted(files, slots, loose)
    ensures |files| == POOL && forall f | 0 <= f < POOL :: files[f].refcount >= 0
  {
  }

  lemma FreeUnused(files: seq<File>, slots: Slots, loose: multiset<int>, f: int)
    requires Counted(files, slots, loose) && 0 <= f < POOL && files[f].refcount == 0
    ensures f !in slots
  {
  }

  ghost function Newest(o: Openings, f: int): Openings
    requires 0 <= f < |o.ids|
  {
    o.(ids := o.ids[f := |o.home|], home := o.home + [f])
  }

  ghost function Dropped(o: Openings, f: int): Openings
    requires 0 <= f < |o.ids|
  {
    o.(dropped := o.dropped + [o.ids[f]])
  }

  ghost predicate SameCounts(files: seq<File>, files': seq<File>) {
    |files| == |files'| && forall f | 0 <= f < |files| :: files'[f].refcount == files[f].refcount
  }

  ghost function Closed(o: Openings, f: int): Openings
    requires 0 <= f < |o.ids|
  {
    o.(closed := o.closed + [o.ids[f]])
  }

  /** Slot `i` is empty now; its file has one reference less, or was closed if that was the last. */
  ghost predicate Released(files: seq<File>, slots: Slots, o: Openings, files': seq<File>, slots': Slots, o': Openings,
                           i: int) {
    && 0 <= i < |slots| && 0 <= slots[i] < |files| == |files'| == |o.ids| && slots' == slots[i := NULL]
    && (forall g | 0 <= g < |files| && g != slots[i] :: files'[g] == files[g])
    && var f := slots[i];
       if files[f].refcount > 1 then files'[f] == files[f].(refcount := files[f].refcount - 1) && o' == o
       else files'[f] == File(NULL, 0, 0, 0) && o' == Closed(o, f)
  }

  /** File `f` of the pool is opening `id`. */
  ghost predicate RefersTo(o: Openings, f: int, id: int) { 0 <= f < |o.ids| && o.ids[f] == id }

  /** An opening that ever had a descriptor is closed exactly when no slot of any process refers to it any more. */
  lemma ClosedIff(files: seq<File>, slots: Slots, o: Openings, id: int)
    requires Counted(files, slots, multiset{}) && Tracked(files, o) && 0 <= id < |o.home| && id !in o.dropped
    ensures id in o.closed <==> forall i | 0 <= i < |slots| :: !RefersTo(o, slots[i], id)
    ensures forall i, j | 0 <= i < |o.closed| && 0 <= j < |o.closed| && o.closed[i] == id == o.closed[j] :: i == j
  {
    assert Accounted(files, o, id);
    var f := o.home[id];
    assert files[f].refcount == multiset(slots)[f];
    if Alive(files, o, id) {
      assert f in multiset(slots);
      var i :| 0 <= i < |slots| && slots[i] == f;
      assert RefersTo(o, slots[i], id);
    } else {
      forall i | 0 <= i < |slots|
        ensures !RefersTo(o, slots[i], id)
      {
        if slots[i] != NULL {
          SlotCounts(slots, i);
          assert FileKnown(files, o, slots[i]);
        }
      }
    }
  }
}
