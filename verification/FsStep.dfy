/**
 One operation on one inode, from a consistent disk to a consistent disk.
 */
module FsStep {
  import opened BlockTree
  import opened FileTree
  import opened Inodes
  import opened Accounts
  import opened Trim
  import opened Shrink
  import opened FileData
  import opened Directory

  ghost predicate Layout(st: Store, tbl: nat, ds: nat) {
    0 < tbl && tbl + 30 <= ds <= |st|
  }

  /** The disk is consistent: `FsInv` for the inode table found on it. */
  ghost predicate DiskOk(st: Store, bm: Bits, tbl: nat, ds: nat) {
    Layout(st, tbl, ds) && FsInv(st, TableRoots(st, tbl), bm, ds)
  }

  /**
   Inode `ino` became `n`; every other inode, its block map and its data are as before, and the set
   of taken blocks that belong to no file is the same.
   */
  ghost predicate OnlyFile(st0: Store, bm0: Bits, st: Store, bm: Bits, tbl: nat, ds: nat, ino: nat, n: Inode)
    requires Layout(st0, tbl, ds) && Layout(st, tbl, ds) && |st0| <= |bm0| && |st| <= |bm| && ino < MAX_INODES
  {
    && Table(st, tbl) == Table(st0, tbl)[ino := n]
    && Leaked(st, TableRoots(st, tbl), bm, ds) == Leaked(st0, TableRoots(st0, tbl), bm0, ds)
    && (forall j :: 0 <= j < MAX_INODES && j != ino ==> Untouched(st0, st, Table(st0, tbl)[j].ptr))
  }

  lemma FinishOp(st0: Store, bm0: Bits, tbl: nat, ds: nat, ino: nat, st1: Store, n: Inode, bm: Bits, st: Store)
    requires DiskOk(st0, bm0, tbl, ds) && ino < MAX_INODES
    requires Change(st0, InodeAt(st0, tbl, ino).ptr, bm0, st1, n.ptr, bm, {})
    requires st == st1[tbl + ino / PER_BLOCK := PutInode(st1[tbl + ino / PER_BLOCK], ino % PER_BLOCK, n)]
    ensures DiskOk(st, bm, tbl, ds)
    ensures OnlyFile(st0, bm0, st, bm, tbl, ds, ino, n) && Untouched(st1, st, n.ptr)
  {
    assert |st1| == |st0| <= |bm|;
    hide Tree, In, FileIn, FileOk, FsOk, Change, Owned, InodeAt, PutInode, FsInv, Leaked, Untouched, At;
    ghost var tr := TableRoots(st0, tbl);
    Commit(st0, tr, bm0, ds, ino, st1, n.ptr, bm);
    TableFrame(st0, st1, tbl);
    ghost var tr1 := TableRoots(st1, tbl)[ino := n.ptr];
    WriteInodeTable(st1, st, tbl, ino, n);
    ReservedWrite(st1, tr1, bm, ds, st);
    forall j | 0 <= j < MAX_INODES && j != ino ensures Untouched(st0, st, Table(st0, tbl)[j].ptr) {
      assert tr1[j] == tr[j] == Table(st0, tbl)[j].ptr;
      UntouchedTrans(st0, st1, st, tr[j]);
    }
    assert tr1[ino] == n.ptr;
  }

  lemma UntouchedTrans(a: Store, b: Store, c: Store, ptr: Roots)
    requires Untouched(a, b, ptr) && Untouched(b, c, ptr)
    ensures Untouched(a, c, ptr)
  {
    hide Tree, In, FileIn, FileOk, At;
  }

  lemma TableFile(st: Store, bm: Bits, tbl: nat, ds: nat, ino: nat)
    requires DiskOk(st, bm, tbl, ds) && ino < MAX_INODES
    ensures FileOk(st, InodeAt(st, tbl, ino).ptr) && Owned(st, InodeAt(st, tbl, ino).ptr, bm, ds) && Reserved(bm, ds)
  {
    hide FileOk, Owned, InodeAt;
    assert TableRoots(st, tbl)[ino] == InodeAt(st, tbl, ino).ptr;
  }

  /** The number of blocks `limnfs_truncate` keeps: the size rounded up, in 32-bit arithmetic. */
  function KeptBlocks(size: u32): nat {
    (size + 4095) % 0x1_0000_0000 / 4096
  }

  /** The kept blocks cover the new size exactly when the rounding does not wrap. */
  lemma KeptBlocksCover(size: u32)
    ensures KeptBlocks(size) * 4096 >= size <==> size <= 0x1_0000_0000 - 4096
    ensures size <= 0x1_0000_0000 - 4096 ==> KeptBlocks(size) * 4096 < size + 4096
  {
  }

  /**
   The effect of a truncation on the inode: beyond the old size only the size changes; otherwise the
   map is cut at the block after the new end and no pointer block is kept without need.
   */
  ghost predicate Truncated(st0: Store, n0: Inode, newSize: u32, st: Store, n: Inode) {
    && n.size == newSize && n == n0.(size := n.size, ptr := n.ptr, blockCount := n.blockCount)
    && (newSize >= n0.size ==> n == n0.(size := n.size) && SameMap(st0, n0.ptr, st, n.ptr))
    && (newSize < n0.size ==>
          MapCutAt(st0, n0.ptr, KeptBlocks(newSize), st, n.ptr) && LeanFile(st, n.ptr, KeptBlocks(newSize)))
  }

  lemma UntouchedLookup(st: Store, st': Store, ptr: Roots, n: nat)
    requires Untouched(st, st', ptr) && FileOk(st, ptr) && n < MAX_LOGICAL
    ensures Lookup(st', ptr, n) == Lookup(st, ptr, n) && SameData(st, st', Lookup(st, ptr, n))
  {
    hide Tree, In, FileIn, FileOk, Walk;
    assert Proper(SlotOf(n));
    if Lookup(st, ptr, n) != 0 { AtIn(st, ptr, SlotOf(n)); }
  }

  lemma UntouchedLean(st: Store, st': Store, ptr: Roots, nb: nat)
    requires Untouched(st, st', ptr) && FileOk(st, ptr) && LeanFile(st, ptr, nb)
    ensures LeanFile(st', ptr, nb)
  {
    forall s | 0 <= s < 13 ensures Lean(st', ptr[s], Level(s), Rest(nb, Base(s))) {
      forall b | 0 <= b < |st| && In(st, ptr[s], Level(s), 1, b) ensures st'[b] == st[b] {
        assert FileIn(st, ptr, 1, b);
        FileInAll(st, ptr, 1, b);
      }
      FrameLean(st, st', ptr[s], Level(s), Rest(nb, Base(s)));
    }
  }

  lemma TruncatedFrame(st0: Store, n0: Inode, newSize: u32, st: Store, n: Inode, st': Store)
    requires Truncated(st0, n0, newSize, st, n) && Untouched(st, st', n.ptr) && FileOk(st, n.ptr) && |st0| == |st|
    ensures Truncated(st0, n0, newSize, st', n)
  {
    hide Tree, In, FileIn, FileOk, Walk, Lookup, Untouched, LeanFile;
    forall m | 0 <= m < MAX_LOGICAL
      ensures Lookup(st', n.ptr, m) == Lookup(st, n.ptr, m) && SameData(st, st', Lookup(st, n.ptr, m))
    {
      UntouchedLookup(st, st', n.ptr, m);
    }
    assert |st'| == |st| by { UntouchedLen(st, st', n.ptr); }
    if newSize < n0.size { UntouchedLean(st, st', n.ptr, KeptBlocks(newSize)); }
  }

  lemma UntouchedLen(st: Store, st': Store, ptr: Roots)
    requires Untouched(st, st', ptr)
    ensures |st'| == |st|
  {
  }

  lemma ChangeOk(st0: Store, ptr0: Roots, bm0: Bits, st: Store, ptr: Roots, bm: Bits)
    requires Change(st0, ptr0, bm0, st, ptr, bm, {})
    ensures FileOk(st, ptr) && |st| == |st0| <= |bm| == |bm0|
  {
  }

  lemma TableEntry(st0: Store, bm0: Bits, st: Store, bm: Bits, tbl: nat, ds: nat, ino: nat, n: Inode)
    requires Layout(st0, tbl, ds) && Layout(st, tbl, ds) && |st0| <= |bm0| && |st| <= |bm| && ino < MAX_INODES
    requires OnlyFile(st0, bm0, st, bm, tbl, ds, ino, n)
    ensures InodeAt(st, tbl, ino) == n
  {
    hide InodeAt, Leaked, Untouched;
    assert Table(st, tbl)[ino] == InodeAt(st, tbl, ino);
  }

  ghost predicate Reserved(bm: Bits, ds: nat) { 0 < ds <= |bm| && forall b :: 0 <= b < ds ==> bm[b] }

  lemma ChangeOwned(st0: Store, ptr0: Roots, bm0: Bits, st: Store, ptr: Roots, bm: Bits, ds: nat)
    requires Change(st0, ptr0, bm0, st, ptr, bm, {}) && Owned(st0, ptr0, bm0, ds)
    requires Reserved(bm0, ds)
    ensures Owned(st, ptr, bm, ds)
  {
    hide Tree, In, FileIn, FileOk;
  }

  lemma NothingInNoRoots(st: Store)
    ensures forall b :: !FileIn(st, NoRoots(), 0, b)
  {
  }

  /** A file that gave up everything: exactly its blocks became free. */
  lemma FreedExactly(st: Store, ptr: Roots, bm0: Bits, bm: Bits)
    requires Change(st, ptr, bm0, st, NoRoots(), bm, {})
    ensures |st| <= |bm| == |bm0| && forall b :: 0 <= b < |st| ==> (bm[b] <==> bm0[b] && !FileIn(st, ptr, 0, b))
  {
    hide Tree, In, FileOk;
    NothingInNoRoots(st);
  }

  /** Inode `ino` is empty now and exactly the blocks of its tree became free; every other inode is untouched. */
  ghost predicate FileGone(st0: Store, bm0: Bits, st: Store, bm: Bits, tbl: nat, ds: nat, ino: nat) {
    && Layout(st0, tbl, ds) && Layout(st, tbl, ds) && |st0| == |st| <= |bm0| == |bm| && ino < MAX_INODES
    && OnlyFile(st0, bm0, st, bm, tbl, ds, ino, EmptyInode())
    && forall b :: 0 <= b < |st| ==> (bm[b] <==> bm0[b] && !FileIn(st0, InodeAt(st0, tbl, ino).ptr, 0, b))
  }

  lemma WroteFrame(st0: Store, ptr0: Roots, st: Store, ptr: Roots, off: nat, buf: seq<byte>, w: nat, st': Store)
    requires Wrote(st0, ptr0, st, ptr, off, buf, w) && Untouched(st, st', ptr) && FileOk(st, ptr)
    ensures Wrote(st0, ptr0, st', ptr, off, buf, w)
  {
    hide Tree, In, FileIn, FileOk, Walk, Lookup, Untouched, Wrote;
    forall m | 0 <= m < MAX_LOGICAL
      ensures Lookup(st', ptr, m) == Lookup(st, ptr, m) && SameData(st, st', Lookup(st, ptr, m))
    {
      UntouchedLookup(st, st', ptr, m);
    }
    UntouchedLen(st, st', ptr);
    WroteSame(st0, ptr0, st, ptr, off, buf, w, st', ptr);
  }

  /** An operation that leaves the inode itself alone. */
  lemma FinishData(st0: Store, bm: Bits, tbl: nat, ds: nat, ino: nat, st: Store)
    requires DiskOk(st0, bm, tbl, ds) && ino < MAX_INODES
    requires var ptr := InodeAt(st0, tbl, ino).ptr; Change(st0, ptr, bm, st, ptr, bm, {})
    ensures DiskOk(st, bm, tbl, ds)
    ensures OnlyFile(st0, bm, st, bm, tbl, ds, ino, InodeAt(st0, tbl, ino))
  {
    assert |st| == |st0| <= |bm|;
    hide Tree, In, FileIn, FileOk, FsOk, Change, Owned, InodeAt, FsInv, Leaked, Untouched, At;
    ghost var tr := TableRoots(st0, tbl);
    Commit(st0, tr, bm, ds, ino, st, InodeAt(st0, tbl, ino).ptr, bm);
    TableFrame(st0, st, tbl);
    assert tr[ino := InodeAt(st0, tbl, ino).ptr] == tr;
    assert Table(st0, tbl)[ino := InodeAt(st0, tbl, ino)] == Table(st0, tbl);
    forall j | 0 <= j < MAX_INODES && j != ino ensures Untouched(st0, st, Table(st0, tbl)[j].ptr) {
      assert tr[j] == Table(st0, tbl)[j].ptr;
    }
  }

  /** Forgetting a freshly filled root leaves a well-formed file with the same map. */
  lemma ForgetRoot(st0: Store, ptr0: Roots, st: Store, ptr: Roots, r: nat)
    requires FileOk(st, ptr) && FillsRoot(ptr0, ptr, r) && ptr0[r] == 0 && SameMap(st0, ptr0, st, ptr)
    ensures FileOk(st, ptr0) && SameMap(st0, ptr0, st, ptr0)
    ensures forall b :: FileIn(st, ptr0, 0, b) ==> FileIn(st, ptr, 0, b)
  {
    assert Tree(st, 0, Level(r)) && forall b :: !In(st, 0, Level(r), 0, b);
    hide Tree, In, FileIn, FileOk;
    ReplaceRoot(st, st, ptr, r, 0, {});
    assert ptr[r := 0] == ptr0;
    AtElsewhere(st, st, ptr, r, 0);
    forall n | 0 <= n < MAX_LOGICAL ensures Lookup(st, ptr0, n) == Lookup(st, ptr, n) {
      assert Proper(SlotOf(n));
      if SlotOf(n).root == r { assert Lookup(st0, ptr0, n) == 0 && Lookup(st, ptr0, n) == 0; }
    }
  }

  /** The blocks of a file, data and pointer blocks. */
  ghost function FileBlocks(st: Store, ptr: Roots): set<int> {
    set b | 0 < b < |st| && FileIn(st, ptr, 0, b)
  }

  /** The disk when pointer blocks were made but the inode was not stored: exactly `lost` are lost, and no map changed. */
  ghost predicate Abandoned(st0: Store, bm0: Bits, st: Store, bm: Bits, tbl: nat, ds: nat, lost: set<int>)
    requires Layout(st0, tbl, ds) && Layout(st, tbl, ds) && |st0| <= |bm0| && |st| <= |bm|
  {
    && Table(st, tbl) == Table(st0, tbl)
    && Leaked(st, TableRoots(st, tbl), bm, ds) == Leaked(st0, TableRoots(st0, tbl), bm0, ds) + lost
    && lost !! Leaked(st0, TableRoots(st0, tbl), bm0, ds)
    && (forall j :: 0 <= j < MAX_INODES ==> SameMap(st0, Table(st0, tbl)[j].ptr, st, Table(st0, tbl)[j].ptr))
  }

  /** What the grown file owns and the stored inode does not reach is lost. */
  lemma AbandonOp(st0: Store, bm0: Bits, tbl: nat, ds: nat, ino: nat, st: Store, ptr: Roots, bm: Bits, r: nat)
    requires DiskOk(st0, bm0, tbl, ds) && ino < MAX_INODES
    requires var ptr0 := InodeAt(st0, tbl, ino).ptr; Grow(st0, ptr0, bm0, st, ptr, bm, {}) && FillsRoot(ptr0, ptr, r)
    ensures DiskOk(st, bm, tbl, ds)
    ensures Abandoned(st0, bm0, st, bm, tbl, ds, FileBlocks(st, ptr) - FileBlocks(st, InodeAt(st0, tbl, ino).ptr))
  {
    ghost var tr, ptr0 := TableRoots(st0, tbl), InodeAt(st0, tbl, ino).ptr;
    assert tr[ino] == ptr0 && tr[ino := ptr0] == tr;
    assert |st| == |st0| <= |bm|;
    hide Tree, In, FileOk, FsOk, InodeAt, Untouched, At, Lookup, FileBlocks;
    if ptr0[r] == 0 { ForgetRoot(st0, ptr0, st, ptr, r); }
    AbandonFs(st0, tr, bm0, ds, ino, st, ptr, bm);
    TableFrame(st0, st, tbl);
    forall j | 0 <= j < MAX_INODES ensures SameMap(st0, Table(st0, tbl)[j].ptr, st, Table(st0, tbl)[j].ptr) {
      assert tr[j] == Table(st0, tbl)[j].ptr;
    }
  }

  lemma AbandonFs(st0: Store, tr: seq<Roots>, bm0: Bits, ds: nat, i: nat, st: Store, ptr: Roots, bm: Bits)
    requires FsInv(st0, tr, bm0, ds) && i < |tr| && Change(st0, tr[i], bm0, st, ptr, bm, {})
    requires FileOk(st, tr[i]) && SameMap(st0, tr[i], st, tr[i]) && forall b :: FileIn(st, tr[i], 0, b) ==> FileIn(st, ptr, 0, b)
    ensures FsInv(st, tr, bm, ds)
    ensures Leaked(st, tr, bm, ds) == Leaked(st0, tr, bm0, ds) + (FileBlocks(st, ptr) - FileBlocks(st, tr[i]))
    ensures FileBlocks(st, ptr) - FileBlocks(st, tr[i]) !! Leaked(st0, tr, bm0, ds)
    ensures forall b :: 0 <= b < ds ==> st[b] == st0[b]
    ensures forall j :: 0 <= j < |tr| ==> SameMap(st0, tr[j], st, tr[j])
  {
    hide Tree, In, FileBlocks;
    assert Owned(st0, tr[i], bm0, ds);
    ghost var extra := set b | 0 <= b < |st| && !bm0[b];
    ReplaceFile(st0, st, tr, i, tr[i], extra);
    assert tr[i := tr[i]] == tr;
    hide FileOk, At;
    forall j | 0 <= j < |tr| && j != i ensures Owned(st, tr[j], bm, ds) && SameMap(st0, tr[j], st, tr[j]) {
      assert Owned(st0, tr[j], bm0, ds) && SameFile(st0, st, tr[j]);
      SameFileMap(st0, st, tr[j], bm0, tr[i]);
    }
    LeakGrows(st0, tr, bm0, ds, i, st, ptr, bm);
  }

  lemma SameFileMap(st0: Store, st: Store, ptr: Roots, bm0: Bits, other: Roots)
    requires FileOk(st0, ptr) && SameFile(st0, st, ptr) && |st| == |st0| <= |bm0|
    requires forall b :: 0 <= b < |st| && st[b] != st0[b] ==> !bm0[b] || FileIn(st0, other, 0, b)
    requires forall b :: FileIn(st0, ptr, 0, b) ==> 0 <= b < |st| && bm0[b] && !FileIn(st0, other, 0, b)
    ensures SameMap(st0, ptr, st, ptr)
  {
    hide Tree, In, FileIn, FileOk, Walk;
    forall n | 0 <= n < MAX_LOGICAL ensures Lookup(st, ptr, n) == Lookup(st0, ptr, n) && SameData(st0, st, Lookup(st0, ptr, n)) {
      assert Proper(SlotOf(n));
      if Lookup(st0, ptr, n) != 0 { AtIn(st0, ptr, SlotOf(n)); }
    }
  }

  lemma LeakGrows(st0: Store, tr: seq<Roots>, bm0: Bits, ds: nat, i: nat, st: Store, ptr: Roots, bm: Bits)
    requires FsInv(st0, tr, bm0, ds) && i < |tr| && Change(st0, tr[i], bm0, st, ptr, bm, {})
    requires forall b :: FileIn(st, tr[i], 0, b) ==> FileIn(st, ptr, 0, b)
    requires forall j :: 0 <= j < |tr| && j != i ==> SameFile(st0, st, tr[j])
    ensures Leaked(st, tr, bm, ds) == Leaked(st0, tr, bm0, ds) + (FileBlocks(st, ptr) - FileBlocks(st, tr[i]))
    ensures FileBlocks(st, ptr) - FileBlocks(st, tr[i]) !! Leaked(st0, tr, bm0, ds)
  {
    hide Tree, In, FileOk, At, FileIn;
    forall b
      ensures b in Leaked(st, tr, bm, ds) <==> b in Leaked(st0, tr, bm0, ds) || b in FileBlocks(st, ptr) - FileBlocks(st, tr[i])
      ensures b in FileBlocks(st, ptr) - FileBlocks(st, tr[i]) ==> b !in Leaked(st0, tr, bm0, ds)
    {
      LeakOf(st0, tr, bm0, ds, i, st, ptr, bm, b);
    }
  }

  lemma LeakOf(st0: Store, tr: seq<Roots>, bm0: Bits, ds: nat, i: nat, st: Store, ptr: Roots, bm: Bits, b: int)
    requires FsInv(st0, tr, bm0, ds) && i < |tr| && Change(st0, tr[i], bm0, st, ptr, bm, {})
    requires forall b :: FileIn(st, tr[i], 0, b) ==> FileIn(st, ptr, 0, b)
    requires forall j :: 0 <= j < |tr| && j != i ==> SameFile(st0, st, tr[j])
    ensures b in Leaked(st, tr, bm, ds) <==> b in Leaked(st0, tr, bm0, ds) || b in FileBlocks(st, ptr) - FileBlocks(st, tr[i])
    ensures b in FileBlocks(st, ptr) - FileBlocks(st, tr[i]) ==> b !in Leaked(st0, tr, bm0, ds)
  {
    hide Tree, In, FileOk, At, FileIn;
    assert Owned(st0, tr[i], bm0, ds);
    assert forall j :: 0 <= j < |tr| && j != i ==> (FileIn(st, tr[j], 0, b) <==> FileIn(st0, tr[j], 0, b));
    if FileIn(st, ptr, 0, b) && !FileIn(st, tr[i], 0, b) {
      forall j | 0 <= j < |tr| && j != i ensures !FileIn(st0, tr[j], 0, b) {
        assert Owned(st0, tr[j], bm0, ds);
      }
      assert !Reachable(st, tr, b);
    }
  }

  /** A grown file whose old blocks were not written: what is newly marked is what joined. */
  lemma GrownFresh(st0: Store, ptr0: Roots, bm0: Bits, st: Store, ptr: Roots, bm: Bits, ds: nat, r: nat)
    requires Grow(st0, ptr0, bm0, st, ptr, bm, {}) && Adds(st0, bm0, st, bm, {}) && Owned(st0, ptr0, bm0, ds) && Reserved(bm0, ds)
    requires FillsRoot(ptr0, ptr, r) && ptr0[r] == 0 && ds <= |st| && FileOk(st0, ptr0)
    ensures |FileBlocks(st, ptr) - FileBlocks(st, ptr0)| == |Free(bm0, ds, |st|)| - |Free(bm, ds, |st|)|
  {
    hide Tree, In, FileOk;
    forall b | 0 <= b < |st| && FileIn(st0, ptr0, 1, b) ensures st[b] == st0[b] { FileInAll(st0, ptr0, 1, b); }
    FileFrame(st0, st, ptr0);
    hide FileIn, At, SameMap;
    var f0, f, more := Free(bm0, ds, |st|), Free(bm, ds, |st|), FileBlocks(st, ptr) - FileBlocks(st, ptr0);
    forall b ensures b in f0 <==> b in f || b in more {
      assert FileIn(st, ptr0, 0, b) <==> FileIn(st0, ptr0, 0, b);
    }
    assert f0 == f + more && f !! more;
  }

  // ----- Directories -----

  /** Directory `ino` got entry `n` at position `at`, in a gap or at the end; nothing else changed. */
  ghost predicate DirAdded(st0: Store, bm0: Bits, st: Store, bm: Bits, tbl: nat, ds: nat, ino: nat, at: nat, n: Entry)
    requires Layout(st0, tbl, ds) && Layout(st, tbl, ds) && |st0| <= |bm0| && |st| <= |bm| && ino < MAX_INODES
  {
    var d0, d := InodeAt(st0, tbl, ino), InodeAt(st, tbl, ino);
    var total := d0.size / 64;
    && d0.kind == TYPE_DIR && OnlyFile(st0, bm0, st, bm, tbl, ds, ino, d)
    && EntryAdded(st0, d0.ptr, total, st, d.ptr, at, n)
    && d == (if at < total then d0 else d0.(size := (total + 1) * 64 % 0x1_0000_0000, ptr := d.ptr, blockCount := d.blockCount))
  }

  /** There is an unused entry, a mapped block for the next one, or space to map it. */
  ghost predicate Room(st: Store, d: Inode, free: int) {
    var total := d.size / 64;
    || FindUnused(st, d.ptr, total, 0) < total
    || Lookup(st, d.ptr, total / PER_DIR_BLOCK) != 0
    || free >= 1 + Missing(st, d.ptr, total / PER_DIR_BLOCK)
  }

  /**
   The addition of an entry makes a pointer block and loses it: no entry is unused, the next one lies in
   the double indirect range, that range has no root yet, and just two blocks are free.
   */
  ghost predicate Loses(st: Store, d: Inode, free: int) {
    var total := d.size / 64;
    FindUnused(st, d.ptr, total, 0) == total && total / PER_DIR_BLOCK >= DOUBLE_BASE && d.ptr[DOUBLE] == 0 && free == 2
  }

  /** Without room but with a missing root, one pointer block is made and lost just when `Loses` says so. */
  lemma LossCount(st: Store, d: Inode, free: nat)
    requires |st| > 0 && !Room(st, d, free)
    requires var lb := d.size / 64 / PER_DIR_BLOCK; d.ptr[SlotOf(lb).root] == 0
    ensures (if free == 0 then 0 else free - 1) == if Loses(st, d, free) then 1 else 0
  {
    var lb := d.size / 64 / PER_DIR_BLOCK;
    if lb < DIRECT {
      MissingDirect(st, d.ptr, lb);
    } else if lb < DOUBLE_BASE {
      MissingSingle(st, d.ptr, lb);
    } else {
      MissingDouble(st, d.ptr, lb);
    }
    hide Missing, FindUnused, Lookup;
  }

  lemma NoLossWithRoot(st: Store, d: Inode, free: nat)
    requires var lb := d.size / 64 / PER_DIR_BLOCK; d.ptr[SlotOf(lb).root] != 0
    ensures !Loses(st, d, free)
  {
  }

  lemma {:induction false} FindUnusedSame(st: Store, st': Store, ptr: Roots, total: nat, e: nat)
    requires total <= PER_DIR_BLOCK * MAX_LOGICAL && e <= total && |st'| == |st|
    requires forall m :: 0 <= m < MAX_LOGICAL ==> Lookup(st', ptr, m) == Lookup(st, ptr, m) && SameData(st, st', Lookup(st, ptr, m))
    ensures FindUnused(st', ptr, total, e) == FindUnused(st, ptr, total, e)
    decreases total - e
  {
    hide Lookup, DirEntry;
    if e < total {
      var m := e / PER_DIR_BLOCK;
      assert Lookup(st', ptr, m) == Lookup(st, ptr, m) && SameData(st, st', Lookup(st, ptr, m));
      FindUnusedSame(st, st', ptr, total, e + 1);
    }
  }

  /** A directory that was not touched has the same room. */
  lemma SameRoom(st: Store, st': Store, d: Inode, free: int)
    requires FileOk(st, d.ptr) && Untouched(st, st', d.ptr)
    ensures FindUnused(st', d.ptr, d.size / 64, 0) == FindUnused(st, d.ptr, d.size / 64, 0)
    ensures Room(st', d, free) == Room(st, d, free) && Loses(st', d, free) == Loses(st, d, free)
  {
    hide FileOk, Lookup, FindUnused, Missing;
    UntouchedLen(st, st', d.ptr);
    UntouchedSame(st, st', d.ptr);
    forall m | 0 <= m < MAX_LOGICAL ensures Lookup(st', d.ptr, m) == Lookup(st, d.ptr, m) && SameData(st, st', Lookup(st, d.ptr, m)) {
      UntouchedLookup(st, st', d.ptr, m);
    }
    hide Untouched, SameFile;
    FindUnusedSame(st, st', d.ptr, d.size / 64, 0);
    MissingSame(st, st', d.ptr, d.size / 64 / PER_DIR_BLOCK);
  }

  lemma UntouchedSame(st: Store, st': Store, ptr: Roots)
    requires Untouched(st, st', ptr)
    ensures SameFile(st, st', ptr)
  {
  }

  // Extending a directory by one block and one entry.

  lemma PresentBy(st: Store, ptr: Roots, e: nat, d: nat)
    requires e / PER_DIR_BLOCK < MAX_LOGICAL && d == Lookup(st, ptr, e / PER_DIR_BLOCK) && 0 < d < |st|
    ensures Present(st, ptr, e)
  {
  }

  lemma ExtendedSelf(st: Store, ptr: Roots, e: nat)
    requires e / PER_DIR_BLOCK < MAX_LOGICAL && Present(st, ptr, e)
    ensures Extended(st, ptr, st, ptr, e)
  {
    hide Lookup;
  }

  lemma ExtendedPlaced(st: Store, ptr: Roots, st': Store, ptr': Roots, e: nat, d: nat)
    requires e / PER_DIR_BLOCK < MAX_LOGICAL && Placed(st, ptr, st', ptr', e / PER_DIR_BLOCK, d) && |st| == |st'| && 0 < d < |st'|
    requires Lookup(st, ptr, e / PER_DIR_BLOCK) == 0
    ensures Extended(st, ptr, st', ptr', e)
  {
    hide Lookup;
  }

  lemma ExtendedFrame(st: Store, ptr: Roots, st1: Store, ptr': Roots, st2: Store, e: nat)
    requires Extended(st, ptr, st1, ptr', e) && SameFile(st1, st2, ptr') && |st2| == |st1|
    ensures Extended(st, ptr, st2, ptr', e)
  {
    hide FileOk, FileIn, At, SlotOf;
    forall m | 0 <= m < MAX_LOGICAL ensures Lookup(st2, ptr', m) == Lookup(st1, ptr', m) {
      assert Proper(SlotOf(m));
    }
  }

  lemma NothingAbandoned(st: Store, bm: Bits, tbl: nat, ds: nat)
    requires DiskOk(st, bm, tbl, ds)
    ensures Abandoned(st, bm, st, bm, tbl, ds, {})
  {
    hide InodeAt, Leaked, Lookup;
  }

  lemma OneEntryFrame(st0: Store, ptr0: Roots, st: Store, ptr: Roots, st': Store, e: nat, n: Entry)
    requires OneEntry(st0, ptr0, st, ptr, e, n) && Untouched(st, st', ptr) && FileOk(st, ptr)
    ensures OneEntry(st0, ptr0, st', ptr, e, n)
  {
    hide Tree, In, FileIn, FileOk, Walk, Lookup, Untouched, DirEntry;
    UntouchedLen(st, st', ptr);
    forall x | 0 <= x < PER_DIR_BLOCK * MAX_LOGICAL ensures EntryAt(st', ptr, x) == EntryAt(st, ptr, x) {
      UntouchedLookup(st, st', ptr, x / PER_DIR_BLOCK);
    }
  }

  // ----- Format -----

  /** An inode without blocks that is no directory. */
  predicate Unused(n: Inode) { n.kind != TYPE_DIR && NoBlocks(n.ptr) }

  /** Bytes of the block bitmap: one bit a block, rounded up to whole blocks, at least one. */
  function BitmapBytes(total: u32): nat {
    var b := (total + 7) / 8;
    var c := if b < 4096 then 4096 else b;
    (c + 4095) / 4096 * 4096
  }

  function TableStart(total: u32): nat { BitmapBytes(total) / 4096 + 2 }

  function DataStart(total: u32): nat { TableStart(total) + 32 }

  lemma LayoutOf(total: u32)
    ensures 8 * BitmapBytes(total) >= total && BitmapBytes(total) >= 4096
    ensures BitmapBytes(total) % 4096 == 0 && (BitmapBytes(total) == 4096 || 8 * (BitmapBytes(total) - 4096) < total)
    ensures TableStart(total) == 1 + BitmapBytes(total) / 4096 + 1 && DataStart(total) == TableStart(total) + 32
    ensures 0 < DataStart(total) <= 8 * BitmapBytes(total)
  {
  }

  /** The superblock, the fewest bitmap blocks with a bit for each block, the inode bitmap and 32 table blocks. */
  ghost predicate Reserves(total: nat, bits: nat, tbl: nat, ds: nat) {
    && bits % 32768 == 0 && total <= bits && 0 < bits && (bits > 32768 ==> bits - 32768 < total)
    && tbl == 1 + bits / 32768 + 1 && ds == tbl + 32
  }

  lemma ReservesBy(total: u32)
    ensures Reserves(total, 8 * BitmapBytes(total), TableStart(total), DataStart(total))
  {
    LayoutOf(total);
    hide BitmapBytes;
  }

  lemma EmptyHasNone()
    ensures EmptyInode().ptr == NoRoots() && EmptyInode().kind != TYPE_DIR && EmptyInode().size == 0
  {
  }

  lemma {:induction false} FreeAll(bm: Bits, lo: nat, hi: nat)
    requires lo <= hi <= |bm| && forall x :: lo <= x < hi ==> !bm[x]
    ensures |Free(bm, lo, hi)| == hi - lo
    decreases hi - lo
  {
    if lo == hi {
      assert Free(bm, lo, hi) == {};
    } else {
      FreeAll(bm, lo, hi - 1);
      assert Free(bm, lo, hi) == Free(bm, lo, hi - 1) + {hi - 1};
    }
  }

  lemma EmptyFile(st: Store)
    ensures FileOk(st, NoRoots()) && forall lo, b :: !FileIn(st, NoRoots(), lo, b)
  {
  }

  lemma DecodeZero(w: seq<u32>)
    requires |w| == WORDS && forall i :: 0 <= i < WORDS ==> w[i] == 0
    ensures Decode(w) == EmptyInode()
  {
    assert w[3..16] == NoRoots() && w[18..29] == NoPadding();
  }

  /** A zeroed inode table describes an empty, consistent disk. */
  lemma FreshTable(st: Store, tbl: nat, bm: Bits, ds: nat)
    requires Layout(st, tbl, ds) && |st| <= |bm| && forall x :: 0 <= x < |bm| ==> (bm[x] <==> x < ds)
    requires forall x :: tbl <= x < tbl + 30 ==> st[x] == ZERO_BLOCK
    ensures DiskOk(st, bm, tbl, ds) && forall i :: 0 <= i < MAX_INODES ==> InodeAt(st, tbl, i) == EmptyInode()
  {
    hide Decode;
    forall i | 0 <= i < MAX_INODES ensures InodeAt(st, tbl, i) == EmptyInode() {
      var s := WORDS * (i % PER_BLOCK);
      assert st[tbl + i / PER_BLOCK] == ZERO_BLOCK;
      DecodeZero(st[tbl + i / PER_BLOCK][s..s + WORDS]);
    }
    hide InodeAt;
    EmptyFile(st);
    hide FileOk, FileIn;
    var tr := TableRoots(st, tbl);
    forall i | 0 <= i < MAX_INODES ensures tr[i] == NoRoots() {}
  }

  lemma RootWritten(st0: Store, bm: Bits, tbl: nat, ds: nat, st: Store, n: Inode)
    requires DiskOk(st0, bm, tbl, ds) && n.ptr == NoRoots() && InodeAt(st0, tbl, 0).ptr == NoRoots()
    requires forall i :: 0 <= i < MAX_INODES ==> InodeAt(st0, tbl, i) == EmptyInode()
    requires st == st0[tbl := PutInode(st0[tbl], 0, n)]
    ensures DiskOk(st, bm, tbl, ds)
    ensures forall i :: 0 <= i < MAX_INODES ==> InodeAt(st, tbl, i) == if i == 0 then n else EmptyInode()
  {
    EmptyFile(st0);
    hide FileOk, FileIn, InodeAt, PutInode, FsInv;
    assert Change(st0, NoRoots(), bm, st0, NoRoots(), bm, {}) by { SizesOf(st0, bm, tbl, ds); }
    FinishOp(st0, bm, tbl, ds, 0, st0, n, bm, st);
    forall i | 0 <= i < MAX_INODES ensures InodeAt(st, tbl, i) == if i == 0 then n else EmptyInode() {
      assert Table(st, tbl)[i] == InodeAt(st, tbl, i) && Table(st0, tbl)[i] == InodeAt(st0, tbl, i);
    }
  }

  lemma SizesOf(st: Store, bm: Bits, tbl: nat, ds: nat)
    requires DiskOk(st, bm, tbl, ds)
    ensures ds <= |st| <= |bm|
  {
    hide FsOk;
  }
}
