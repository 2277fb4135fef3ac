/**
 What creating and deleting does to the other inodes.
 */
module Names {
  import opened BlockTree
  import opened FileTree
  import opened Inodes
  import opened Accounts
  import opened FileData
  import opened Directory
  import opened FsStep

  /** Every inode outside `ex` is the same, with the same map and data. */
  ghost predicate Kept(st0: Store, st: Store, tbl: nat, ex: set<int>) {
    && tbl + 30 <= |st0| == |st|
    && forall j :: 0 <= j < MAX_INODES && j !in ex ==> KeptOne(st0, st, tbl, j)
  }

  ghost predicate KeptOne(st0: Store, st: Store, tbl: nat, j: nat)
    requires tbl + 30 <= |st0| == |st| && j < MAX_INODES
  {
    var n := InodeAt(st0, tbl, j);
    InodeAt(st, tbl, j) == n && SameMap(st0, n.ptr, st, n.ptr)
  }

  lemma SameMapTrans(a: Store, b: Store, c: Store, ptr: Roots)
    requires SameMap(a, ptr, b, ptr) && SameMap(b, ptr, c, ptr) && |a| == |b| == |c|
    ensures SameMap(a, ptr, c, ptr)
  {
    hide Lookup;
  }

  lemma KeptTrans(a: Store, b: Store, c: Store, tbl: nat, ex1: set<int>, ex2: set<int>)
    requires Kept(a, b, tbl, ex1) && Kept(b, c, tbl, ex2)
    ensures Kept(a, c, tbl, ex1 + ex2)
  {
    hide InodeAt, SameMap;
    forall j | 0 <= j < MAX_INODES && j !in ex1 + ex2 ensures KeptOne(a, c, tbl, j) {
      assert KeptOne(a, b, tbl, j) && KeptOne(b, c, tbl, j);
      SameMapTrans(a, b, c, InodeAt(a, tbl, j).ptr);
    }
  }

  lemma KeptOnly(st0: Store, bm0: Bits, st: Store, bm: Bits, tbl: nat, ds: nat, ino: nat, n: Inode)
    requires DiskOk(st0, bm0, tbl, ds) && Layout(st, tbl, ds) && |st0| <= |bm0| && |st| <= |bm| && ino < MAX_INODES
    requires OnlyFile(st0, bm0, st, bm, tbl, ds, ino, n) && |st| == |st0|
    ensures Kept(st0, st, tbl, {ino})
  {
    hide InodeAt, SameMap, Leaked, Untouched, FsInv;
    forall j | 0 <= j < MAX_INODES && j != ino ensures KeptOne(st0, st, tbl, j) {
      assert Table(st, tbl)[j] == InodeAt(st, tbl, j) && Table(st0, tbl)[j] == InodeAt(st0, tbl, j);
      TableFile(st0, bm0, tbl, ds, j);
      UntouchedMap(st0, st, InodeAt(st0, tbl, j).ptr);
    }
  }

  lemma UntouchedMap(st0: Store, st: Store, ptr: Roots)
    requires Untouched(st0, st, ptr) && FileOk(st0, ptr)
    ensures SameMap(st0, ptr, st, ptr)
  {
    hide Untouched, FileOk, Lookup;
    forall n | 0 <= n < MAX_LOGICAL ensures Lookup(st, ptr, n) == Lookup(st0, ptr, n) && SameData(st0, st, Lookup(st0, ptr, n)) {
      UntouchedLookup(st0, st, ptr, n);
    }
  }

  lemma KeptAbandoned(st0: Store, bm0: Bits, st: Store, bm: Bits, tbl: nat, ds: nat, lost: set<int>)
    requires Layout(st0, tbl, ds) && Layout(st, tbl, ds) && |st0| <= |bm0| && |st| <= |bm| && |st| == |st0|
    requires Abandoned(st0, bm0, st, bm, tbl, ds, lost)
    ensures Kept(st0, st, tbl, {})
  {
    hide InodeAt, SameMap, Leaked;
    forall j | 0 <= j < MAX_INODES ensures KeptOne(st0, st, tbl, j) {
      assert Table(st, tbl)[j] == InodeAt(st, tbl, j) && Table(st0, tbl)[j] == InodeAt(st0, tbl, j);
    }
  }

  // ----- A fresh inode -----

  /** Storing an inode without blocks over slot `ino`: exactly the blocks it had before are lost, nothing else changes. */
  ghost predicate Reset(st0: Store, st: Store, bm: Bits, tbl: nat, ds: nat, ino: nat, n: Inode)
    requires Layout(st0, tbl, ds) && Layout(st, tbl, ds) && |st0| == |st| <= |bm| && ino < MAX_INODES
  {
    && Table(st, tbl) == Table(st0, tbl)[ino := n] && Kept(st0, st, tbl, {ino})
    && Leaked(st, TableRoots(st, tbl), bm, ds) ==
       Leaked(st0, TableRoots(st0, tbl), bm, ds) + FileBlocks(st0, InodeAt(st0, tbl, ino).ptr)
    && FileBlocks(st0, InodeAt(st0, tbl, ino).ptr) !! Leaked(st0, TableRoots(st0, tbl), bm, ds)
    && (forall j :: 0 <= j < MAX_INODES && j != ino ==> Untouched(st0, st, Table(st0, tbl)[j].ptr))
  }

  lemma ResetOp(st0: Store, bm: Bits, tbl: nat, ds: nat, ino: nat, n: Inode, st: Store)
    requires DiskOk(st0, bm, tbl, ds) && ino < MAX_INODES && n.ptr == NoRoots()
    requires st == st0[tbl + ino / PER_BLOCK := PutInode(st0[tbl + ino / PER_BLOCK], ino % PER_BLOCK, n)]
    ensures DiskOk(st, bm, tbl, ds) && |st| == |st0| <= |bm| && Reset(st0, st, bm, tbl, ds, ino, n)
  {
    var tr := TableRoots(st0, tbl);
    var tr' := tr[ino := NoRoots()];
    assert tr[ino] == InodeAt(st0, tbl, ino).ptr;
    EmptyFile(st0);
    SizesOf(st0, bm, tbl, ds);
    hide Tree, In, InodeAt, PutInode, FileOk, At;
    assert forall j :: 0 <= j < |tr| && j != ino ==> tr'[j] == tr[j];
    assert FsInv(st0, tr', bm, ds);
    LessReachable(st0, tr, tr', bm, ds, ino);
    hide FileIn, FsInv, Leaked, Untouched, FileBlocks;
    WriteInodeTable(st0, st, tbl, ino, n);
    ReservedWrite(st0, tr', bm, ds, st);
    forall j | 0 <= j < MAX_INODES && j != ino ensures KeptOne(st0, st, tbl, j) && Untouched(st0, st, Table(st0, tbl)[j].ptr) {
      assert Table(st, tbl)[j] == InodeAt(st, tbl, j) && Table(st0, tbl)[j] == InodeAt(st0, tbl, j);
      assert tr'[j] == InodeAt(st0, tbl, j).ptr;
      TableFile(st0, bm, tbl, ds, j);
      UntouchedMap(st0, st, tr'[j]);
    }
  }

  lemma ResetKeeps(st0: Store, st: Store, bm: Bits, tbl: nat, ds: nat, ino: nat, n: Inode, j: nat)
    requires Layout(st0, tbl, ds) && Layout(st, tbl, ds) && |st0| == |st| <= |bm| && ino < MAX_INODES
    requires Reset(st0, st, bm, tbl, ds, ino, n) && j < MAX_INODES && j != ino
    ensures InodeAt(st, tbl, j) == InodeAt(st0, tbl, j) && Untouched(st0, st, InodeAt(st0, tbl, j).ptr)
  {
    hide InodeAt, SameMap, Leaked, Untouched, FileBlocks;
    assert KeptOne(st0, st, tbl, j);
    assert Table(st0, tbl)[j] == InodeAt(st0, tbl, j);
  }

  lemma ResetLost(st0: Store, st: Store, bm: Bits, tbl: nat, ds: nat, ino: nat, n: Inode)
    requires Layout(st0, tbl, ds) && Layout(st, tbl, ds) && |st0| == |st| <= |bm| && ino < MAX_INODES && Reset(st0, st, bm, tbl, ds, ino, n)
    ensures FileBlocks(st0, InodeAt(st0, tbl, ino).ptr) !! Leaked(st0, TableRoots(st0, tbl), bm, ds)
  {
    hide InodeAt, Leaked, Untouched, FileBlocks, Kept;
  }

  lemma LessReachable(st: Store, tr: seq<Roots>, tr': seq<Roots>, bm: Bits, ds: nat, i: nat)
    requires i < |tr| == |tr'| && (forall j :: 0 <= j < |tr| && j != i ==> tr'[j] == tr[j]) && FsInv(st, tr, bm, ds)
    requires forall b :: !FileIn(st, tr'[i], 0, b)
    ensures Leaked(st, tr', bm, ds) == Leaked(st, tr, bm, ds) + FileBlocks(st, tr[i])
    ensures FileBlocks(st, tr[i]) !! Leaked(st, tr, bm, ds)
  {
    hide FileIn, FileOk;
    assert Owned(st, tr[i], bm, ds);
    forall b
      ensures b in Leaked(st, tr', bm, ds) <==> b in Leaked(st, tr, bm, ds) || b in FileBlocks(st, tr[i])
      ensures b in FileBlocks(st, tr[i]) ==> b !in Leaked(st, tr, bm, ds)
    {
      if FileIn(st, tr[i], 0, b) {
        assert Reachable(st, tr, b) && !Reachable(st, tr', b);
      } else if Reachable(st, tr, b) {
        var j :| 0 <= j < |tr| && FileIn(st, tr[j], 0, b);
        assert FileIn(st, tr'[j], 0, b);
      }
    }
  }

  /** An inode without blocks owns none. */
  lemma NoFileBlocks(st: Store, ptr: Roots)
    requires FileOk(st, ptr)
    ensures FileBlocks(st, ptr) == {} <==> NoBlocks(ptr)
  {
    if NoBlocks(ptr) {
      assert ptr == NoRoots();
      NothingInNoRoots(st);
    } else {
      var r :| 0 <= r < 13 && ptr[r] != 0;
      assert Tree(st, ptr[r], Level(r));
      assert In(st, ptr[r], Level(r), 0, ptr[r]);
      assert FileIn(st, ptr, 0, ptr[r]);
      assert (ptr[r] as int) in FileBlocks(st, ptr);
    }
  }

  // ----- Names -----

  /** The number of entries that the size of a directory records after an addition at `at`; the size field has 32 bits. */
  function TotalAfter(total: nat, at: nat): nat { if at < total then total else (total + 1) % 0x400_0000 }

  /** Directory `dir` got the entry `n` at `at`, the first unused place or the end; its other entries are as before. */
  ghost predicate Linked(st0: Store, st: Store, tbl: nat, dir: nat, at: nat, n: Entry) {
    && dir < MAX_INODES && tbl + 30 <= |st0| == |st|
    && var d0, d := InodeAt(st0, tbl, dir), InodeAt(st, tbl, dir);
       && d0.kind == TYPE_DIR && d.kind == TYPE_DIR && d.size / 64 == TotalAfter(d0.size / 64, at)
       && EntryAdded(st0, d0.ptr, d0.size / 64, st, d.ptr, at, n)
  }

  lemma AddedLinked(st0: Store, bm0: Bits, st: Store, bm: Bits, tbl: nat, ds: nat, dir: nat, at: nat, n: Entry)
    requires Layout(st0, tbl, ds) && Layout(st, tbl, ds) && |st0| == |st| <= |bm0| && |st| <= |bm| && dir < MAX_INODES
    requires DirAdded(st0, bm0, st, bm, tbl, ds, dir, at, n)
    ensures Linked(st0, st, tbl, dir, at, n)
  {
    hide InodeAt, OnlyFile, EntryAdded;
  }

  /** The same seen from an earlier state in which the directory was the same. */
  lemma LinkedFrom(st0: Store, st1: Store, st: Store, tbl: nat, dir: nat, at: nat, n: Entry)
    requires Linked(st1, st, tbl, dir, at, n) && |st0| == |st1| && InodeAt(st1, tbl, dir) == InodeAt(st0, tbl, dir)
    requires FileOk(st0, InodeAt(st0, tbl, dir).ptr) && Untouched(st0, st1, InodeAt(st0, tbl, dir).ptr)
    ensures Linked(st0, st, tbl, dir, at, n)
  {
    var d0, d := InodeAt(st0, tbl, dir), InodeAt(st, tbl, dir);
    hide InodeAt, Untouched, FileOk, Lookup, DirEntry, FindUnused;
    SameRoom(st0, st1, d0, 0);
    forall m | 0 <= m < MAX_LOGICAL ensures Lookup(st1, d0.ptr, m) == Lookup(st0, d0.ptr, m) && SameData(st0, st1, Lookup(st0, d0.ptr, m)) {
      UntouchedLookup(st0, st1, d0.ptr, m);
    }
    forall x | 0 <= x < PER_DIR_BLOCK * MAX_LOGICAL ensures EntryAt(st1, d0.ptr, x) == EntryAt(st0, d0.ptr, x) {
      assert SameData(st0, st1, Lookup(st0, d0.ptr, x / PER_DIR_BLOCK));
    }
  }

  /** Where `other` is found after an entry for `name` was added at `at`. */
  ghost predicate NameAdded(st0: Store, ptr0: Roots, total: nat, st: Store, ptr: Roots, total': nat, at: nat, name: seq<byte>, other: seq<byte>) {
    && total < PER_DIR_BLOCK * MAX_LOGICAL && total' <= PER_DIR_BLOCK * MAX_LOGICAL
    && var r := Find(st0, ptr0, total, other, 0);
       Find(st, ptr, total', other, 0) ==
       if other == name && Reaches(st0, ptr0, total) && at <= r then at else if r < total then r else total'
  }

  /** The names of directory `dir` after an entry for `name` was added at `at`. */
  ghost predicate NamesAdded(st0: Store, st: Store, tbl: nat, dir: nat, at: nat, name: seq<byte>)
    requires dir < MAX_INODES && tbl + 30 <= |st0| == |st|
  {
    var d0, d := InodeAt(st0, tbl, dir), InodeAt(st, tbl, dir);
    forall other: seq<byte> :: NameAdded(st0, d0.ptr, d0.size / 64, st, d.ptr, d.size / 64, at, name, other)
  }

  /** Unless the size field wraps, lookups change just for the new name, and for it exactly when the scans reach the entry. */
  lemma LinkedNames(st0: Store, st: Store, tbl: nat, dir: nat, at: nat, n: Entry)
    requires Linked(st0, st, tbl, dir, at, n) && n.ino != 0 && FileOk(st0, InodeAt(st0, tbl, dir).ptr)
    requires at < InodeAt(st0, tbl, dir).size / 64 || InodeAt(st0, tbl, dir).size / 64 + 1 < 0x400_0000
    ensures NamesAdded(st0, st, tbl, dir, at, n.name)
  {
    hide InodeAt, FileOk, EntryAdded, NameAdded;
    var d0, d := InodeAt(st0, tbl, dir), InodeAt(st, tbl, dir);
    FileOnDisk(st0, d0.ptr);
    AddedPlace(st0, d0.ptr, d0.size / 64, st, d.ptr, at, n);
    forall other: seq<byte> ensures NameAdded(st0, d0.ptr, d0.size / 64, st, d.ptr, d.size / 64, at, n.name, other) {
      LinkedName(st0, d0.ptr, d0.size / 64, st, d.ptr, d.size / 64, at, n, other);
    }
  }

  lemma LinkedName(st0: Store, ptr0: Roots, total: nat, st: Store, ptr: Roots, total': nat, at: nat, n: Entry, other: seq<byte>)
    requires EntryAdded(st0, ptr0, total, st, ptr, at, n) && n.ino != 0 && OnDisk(st0, ptr0)
    requires total < PER_DIR_BLOCK * MAX_LOGICAL && total' == if at < total then total else total + 1
    ensures NameAdded(st0, ptr0, total, st, ptr, total', at, n.name, other)
  {
    hide Reaches, Find, OnDisk, EntryAdded;
    FindAdded(st0, ptr0, total, st, ptr, at, n, other);
  }

  lemma AddedPlace(st: Store, ptr: Roots, total: nat, st': Store, ptr': Roots, e: nat, n: Entry)
    requires EntryAdded(st, ptr, total, st', ptr', e, n)
    ensures e <= total
  {
  }

  // ----- Directories without holes -----

  ghost predicate SolidDir(st: Store, tbl: nat, j: nat)
    requires tbl + 30 <= |st| && j < MAX_INODES
  {
    Solid(st, InodeAt(st, tbl, j).ptr, InodeAt(st, tbl, j).size / 64)
  }

  /** Every directory is without holes. */
  ghost predicate AllSolid(st: Store, tbl: nat)
    requires tbl + 30 <= |st|
  {
    forall j :: 0 <= j < MAX_INODES && InodeAt(st, tbl, j).kind == TYPE_DIR ==> SolidDir(st, tbl, j)
  }

  lemma SolidKept(st0: Store, st: Store, tbl: nat, j: nat)
    requires tbl + 30 <= |st0| == |st| && j < MAX_INODES && KeptOne(st0, st, tbl, j) && SolidDir(st0, tbl, j)
    ensures SolidDir(st, tbl, j)
  {
    hide InodeAt, Lookup;
    var n := InodeAt(st0, tbl, j);
    forall e | 0 <= e < n.size / 64 ensures Present(st, n.ptr, e) {
      assert Present(st0, n.ptr, e) && Lookup(st, n.ptr, e / PER_DIR_BLOCK) == Lookup(st0, n.ptr, e / PER_DIR_BLOCK);
    }
  }

  /** Adding an entry to a directory without holes leaves none. */
  lemma SolidLinked(st0: Store, st: Store, tbl: nat, dir: nat, at: nat, n: Entry)
    requires Linked(st0, st, tbl, dir, at, n) && SolidDir(st0, tbl, dir)
    ensures SolidDir(st, tbl, dir)
  {
    hide InodeAt, Lookup, FindUnused, OneEntry;
    var d0, d := InodeAt(st0, tbl, dir), InodeAt(st, tbl, dir);
    forall e | 0 <= e < d.size / 64 ensures Present(st, d.ptr, e) {
      if e < d0.size / 64 {
        assert Present(st0, d0.ptr, e);
      }
    }
  }

  lemma SolidEmpty(st: Store, tbl: nat, j: nat)
    requires tbl + 30 <= |st| && j < MAX_INODES && InodeAt(st, tbl, j).size == 0
    ensures SolidDir(st, tbl, j)
  {
  }

  /** A name that was absent from a directory without holes is found after it was added, and so is its inode. */
  lemma CreatedIsFound(st0: Store, st: Store, tbl: nat, dir: nat, at: nat, n: Entry)
    requires Linked(st0, st, tbl, dir, at, n) && SolidDir(st0, tbl, dir) && NamesAdded(st0, st, tbl, dir, at, n.name)
    requires var d0 := InodeAt(st0, tbl, dir); Find(st0, d0.ptr, d0.size / 64, n.name, 0) == d0.size / 64
    ensures var d := InodeAt(st, tbl, dir);
            Find(st, d.ptr, d.size / 64, n.name, 0) == at && EntryAt(st, d.ptr, at) == n
  {
    hide InodeAt, Lookup, FindUnused, Find, EntryAt, Extent;
    var d0, d := InodeAt(st0, tbl, dir), InodeAt(st, tbl, dir);
    SolidExtent(st0, d0.ptr, d0.size / 64);
    AddedPlace(st0, d0.ptr, d0.size / 64, st, d.ptr, at, n);
    EntriesAre(st0, d0.ptr, st, d.ptr, at, n, at);
    assert Reaches(st0, d0.ptr, d0.size / 64);
    assert NameAdded(st0, d0.ptr, d0.size / 64, st, d.ptr, d.size / 64, at, n.name, n.name);
  }

  /** A directory without holes that looks empty has no live entry. */
  lemma EmptySolid(st: Store, tbl: nat, j: nat)
    requires tbl + 30 <= |st| && j < MAX_INODES && SolidDir(st, tbl, j)
    requires var n := InodeAt(st, tbl, j); LooksEmpty(st, n.ptr, n.size / 64)
    ensures var n := InodeAt(st, tbl, j); NothingLive(st, n.ptr, n.size / 64)
  {
    hide InodeAt, LooksEmpty, NothingLive, Island;
    var n := InodeAt(st, tbl, j);
    SolidNoIsland(st, n.ptr, n.size / 64);
    LooksEmptyIs(st, n.ptr, n.size / 64);
  }

  lemma FreshSolid(st: Store, tbl: nat)
    requires tbl + 30 <= |st| && forall j :: 0 <= j < MAX_INODES ==> InodeAt(st, tbl, j).size == 0
    ensures AllSolid(st, tbl)
  {
    hide InodeAt, SolidDir;
    forall j | 0 <= j < MAX_INODES ensures SolidDir(st, tbl, j) { SolidEmpty(st, tbl, j); }
  }

  // ----- Create -----

  function KindOf(dir: bool): u16 { if dir then TYPE_DIR else TYPE_FILE }

  function FreshInode(parent: u32, dir: bool): Inode {
    EmptyInode().(kind := if dir then TYPE_DIR else TYPE_FILE, mode := if dir then 7 else 6, parent := parent)
  }

  lemma FreshHasNone(parent: u32, dir: bool)
    ensures FreshInode(parent, dir).ptr == NoRoots() && FreshInode(parent, dir).size == 0
  {
  }

  /** An empty directory has room for an entry exactly when a block is free, on any disk. */
  lemma FreshRoom(st: Store, st': Store, parent: u32, dir: bool, free: int)
    ensures var n := FreshInode(parent, dir); Room(st, n, free) == Room(st', n, free) && Loses(st, n, free) == Loses(st', n, free)
  {
    var n := FreshInode(parent, dir);
    FreshHasNone(parent, dir);
    MissingDirect(st, n.ptr, 0);
    MissingDirect(st', n.ptr, 0);
    DirectSlot(st, n.ptr, 0);
    DirectSlot(st', n.ptr, 0);
    hide Missing, Lookup, FreshInode;
  }

  /** A directory with room loses nothing. */
  lemma RoomLosesNot(st: Store, d: Inode, free: int)
    requires |st| > 0
    ensures Room(st, d, free) ==> !Loses(st, d, free)
  {
    var lb := d.size / 64 / PER_DIR_BLOCK;
    if lb >= DOUBLE_BASE && d.ptr[DOUBLE] == 0 {
      MissingDouble(st, d.ptr, lb);
      assert Lookup(st, d.ptr, lb) == 0;
    }
    hide Missing, FindUnused, Lookup;
  }

  lemma KeptMore(st0: Store, st: Store, tbl: nat, ex: set<int>, ex': set<int>)
    requires Kept(st0, st, tbl, ex) && ex <= ex'
    ensures Kept(st0, st, tbl, ex')
  {
    hide KeptOne;
  }

  ghost predicate TidyTable(st: Store, tbl: nat, ibm: Bits) {
    && |ibm| == MAX_INODES && tbl + 30 <= |st|
    && forall i :: 0 <= i < MAX_INODES && !ibm[i] ==> Unused(InodeAt(st, tbl, i))
  }

  lemma KeptSelf(st: Store, tbl: nat)
    requires tbl + 30 <= |st|
    ensures Kept(st, st, tbl, {}) && forall j :: 0 <= j < MAX_INODES ==> KeptOne(st, st, tbl, j)
  {
    hide InodeAt, Lookup;
  }

  /** Inodes outside `ex` are kept, so they stay tidy. */
  lemma TidyKept(st0: Store, st: Store, tbl: nat, ibm0: Bits, ibm: Bits, ex: set<int>)
    requires TidyTable(st0, tbl, ibm0) && Kept(st0, st, tbl, ex) && |ibm| == MAX_INODES
    requires forall j :: 0 <= j < MAX_INODES && j !in ex ==> ibm[j] == ibm0[j]
    requires forall j :: 0 <= j < MAX_INODES && j in ex && !ibm[j] ==> Unused(InodeAt(st, tbl, j))
    ensures TidyTable(st, tbl, ibm)
  {
    hide InodeAt, SameMap, Unused;
    forall j | 0 <= j < MAX_INODES && !ibm[j] ensures Unused(InodeAt(st, tbl, j)) {
      if j !in ex { assert KeptOne(st0, st, tbl, j); }
    }
  }

  /** A successful creation: the inode is fresh, the entry is in its directory, and exactly the blocks of a recycled inode are lost. */
  lemma CreateDone(st0: Store, bm0: Bits, st1: Store, st: Store, bm: Bits, tbl: nat, ds: nat, ino: nat, parent: u32, dir: bool,
                   at: nat, name: seq<byte>)
    requires DiskOk(st0, bm0, tbl, ds) && DiskOk(st1, bm0, tbl, ds) && DiskOk(st, bm, tbl, ds)
    requires |st0| == |st1| == |st| <= |bm0| && |st| <= |bm| && 0 < ino < MAX_INODES && parent < MAX_INODES
    requires Reset(st0, st1, bm0, tbl, ds, ino, FreshInode(parent, dir))
    requires DirAdded(st1, bm0, st, bm, tbl, ds, parent, at, Named(ino, KindOf(dir), name))
    ensures Kept(st0, st, tbl, {ino, parent as int})
    ensures ino != parent ==> InodeAt(st, tbl, ino) == FreshInode(parent, dir) && Linked(st0, st, tbl, parent, at, Named(ino, KindOf(dir), name))
    ensures ino == parent ==> InodeAt(st1, tbl, ino) == FreshInode(parent, dir) && Linked(st1, st, tbl, ino, at, Named(ino, KindOf(dir), name))
    ensures Leaked(st, TableRoots(st, tbl), bm, ds) ==
            Leaked(st0, TableRoots(st0, tbl), bm0, ds) + FileBlocks(st0, InodeAt(st0, tbl, ino).ptr)
  {
    var fresh1, d := FreshInode(parent, dir), InodeAt(st, tbl, parent);
    AddedLinked(st1, bm0, st, bm, tbl, ds, parent, at, Named(ino, KindOf(dir), name));
    hide InodeAt, FsInv, Leaked, FreshInode, EntryAdded, Untouched, TableRoots, Linked, SameMap, FileBlocks;
    KeptOnly(st1, bm0, st, bm, tbl, ds, parent, d);
    KeptTrans(st0, st1, st, tbl, {ino}, {parent as int});
    assert {ino as int} + {parent as int} == {ino, parent as int};
    assert Table(st1, tbl)[ino] == fresh1 && Table(st1, tbl)[ino] == InodeAt(st1, tbl, ino);
    if ino != parent {
      assert KeptOne(st1, st, tbl, ino);
      ResetKeeps(st0, st1, bm0, tbl, ds, ino, fresh1, parent);
      TableFile(st0, bm0, tbl, ds, parent);
      LinkedFrom(st0, st1, st, tbl, parent, at, Named(ino, KindOf(dir), name));
    }
  }

  lemma CreateTidy(st0: Store, st: Store, tbl: nat, ino: nat, parent: u32, ibm0: Bits)
    requires Kept(st0, st, tbl, {ino, parent as int}) && 0 < ino < MAX_INODES && parent < MAX_INODES && TidyTable(st0, tbl, ibm0)
    requires !ibm0[ino] && (ino != parent ==> InodeAt(st0, tbl, parent).kind == TYPE_DIR)
    ensures TidyTable(st, tbl, ibm0[ino := true]) && NoBlocks(InodeAt(st0, tbl, ino).ptr)
  {
    hide InodeAt, Kept;
    assert Unused(InodeAt(st0, tbl, ino));
    TidyKept(st0, st, tbl, ibm0, ibm0[ino := true], {ino, parent as int});
  }

  /** A failed creation: every other inode is kept, and what is lost are the blocks of a recycled inode and those of the failed addition. */
  lemma CreateUndone(st0: Store, bm0: Bits, st1: Store, st2: Store, bm2: Bits, st: Store, bm: Bits, tbl: nat, ds: nat,
                     ino: nat, n: Inode, lost: set<int>)
    requires DiskOk(st0, bm0, tbl, ds) && DiskOk(st1, bm0, tbl, ds) && DiskOk(st2, bm2, tbl, ds) && DiskOk(st, bm, tbl, ds)
    requires |st0| == |st1| == |st2| == |st| <= |bm0| && |st| <= |bm2| && |st| <= |bm| && 0 < ino < MAX_INODES
    requires Reset(st0, st1, bm0, tbl, ds, ino, n) && Abandoned(st1, bm0, st2, bm2, tbl, ds, lost)
    requires OnlyFile(st2, bm2, st, bm, tbl, ds, ino, EmptyInode())
    ensures Kept(st0, st, tbl, {ino}) && InodeAt(st, tbl, ino) == EmptyInode()
    ensures Leaked(st, TableRoots(st, tbl), bm, ds) ==
            Leaked(st0, TableRoots(st0, tbl), bm0, ds) + FileBlocks(st0, InodeAt(st0, tbl, ino).ptr) + lost
    ensures lost !! Leaked(st0, TableRoots(st0, tbl), bm0, ds)
  {
    hide InodeAt, FsInv, Leaked, Untouched, TableRoots, SameMap, FileBlocks;
    KeptAbandoned(st1, bm0, st2, bm2, tbl, ds, lost);
    KeptOnly(st2, bm2, st, bm, tbl, ds, ino, EmptyInode());
    KeptTrans(st0, st1, st2, tbl, {ino}, {});
    KeptTrans(st0, st2, st, tbl, {ino as int} + {}, {ino});
    assert {ino as int} + {} + {ino as int} == {ino as int};
    TableEntry(st2, bm2, st, bm, tbl, ds, ino, EmptyInode());
  }

  /** Inodes kept outside `ex`, those in `ex` without holes: directories stay without holes. */
  lemma AllSolidKept(st0: Store, st: Store, tbl: nat, ex: set<int>)
    requires Kept(st0, st, tbl, ex) && AllSolid(st0, tbl)
    requires forall j :: 0 <= j < MAX_INODES && j in ex && InodeAt(st, tbl, j).kind == TYPE_DIR ==> SolidDir(st, tbl, j)
    ensures AllSolid(st, tbl)
  {
    hide InodeAt, SameMap, SolidDir;
    forall j | 0 <= j < MAX_INODES && InodeAt(st, tbl, j).kind == TYPE_DIR ensures SolidDir(st, tbl, j) {
      if j !in ex {
        assert KeptOne(st0, st, tbl, j);
        SolidKept(st0, st, tbl, j);
      }
    }
  }

  /** Creating keeps every directory without holes. */
  lemma CreateSolid(st0: Store, st1: Store, st: Store, tbl: nat, ino: nat, parent: u32, dir: bool, at: nat, n: Entry)
    requires Kept(st0, st, tbl, {ino, parent as int}) && ino < MAX_INODES && parent < MAX_INODES && AllSolid(st0, tbl)
    requires |st1| == |st| && tbl + 30 <= |st1|
    requires ino != parent ==> InodeAt(st, tbl, ino) == FreshInode(parent, dir) && Linked(st0, st, tbl, parent, at, n)
    requires ino == parent ==> InodeAt(st1, tbl, ino) == FreshInode(parent, dir) && Linked(st1, st, tbl, ino, at, n)
    ensures AllSolid(st, tbl)
  {
    hide InodeAt, Kept, SolidDir, EntryAdded;
    if ino == parent {
      SolidEmpty(st1, tbl, ino);
      SolidLinked(st1, st, tbl, ino, at, n);
    } else {
      SolidEmpty(st, tbl, ino);
      SolidLinked(st0, st, tbl, parent, at, n);
    }
    AllSolidKept(st0, st, tbl, {ino, parent as int});
  }

  // ----- Other operations on one inode -----

  lemma TidyOnly(st0: Store, bm0: Bits, st: Store, bm: Bits, tbl: nat, ds: nat, ino: nat, n: Inode, ibm0: Bits, ibm: Bits)
    requires DiskOk(st0, bm0, tbl, ds) && Layout(st, tbl, ds) && |st0| <= |bm0| && |st| <= |bm| && ino < MAX_INODES
    requires OnlyFile(st0, bm0, st, bm, tbl, ds, ino, n) && |st| == |st0| && TidyTable(st0, tbl, ibm0)
    requires |ibm| == MAX_INODES && (forall j :: 0 <= j < MAX_INODES && j != ino ==> ibm[j] == ibm0[j]) && (!ibm[ino] ==> Unused(n))
    ensures TidyTable(st, tbl, ibm)
  {
    hide InodeAt, SameMap, Leaked, Untouched, FsInv, Unused, OnlyFile;
    KeptOnly(st0, bm0, st, bm, tbl, ds, ino, n);
    TableEntry(st0, bm0, st, bm, tbl, ds, ino, n);
    TidyKept(st0, st, tbl, ibm0, ibm, {ino});
  }

  // ----- Delete -----

  /** Directory `dir` lost the entry at `at`; its other entries and its map are as before. */
  ghost predicate Unlinked(st0: Store, st: Store, tbl: nat, dir: nat, at: nat) {
    && dir < MAX_INODES && tbl + 30 <= |st0| == |st| && at / PER_DIR_BLOCK < MAX_LOGICAL
    && var d := InodeAt(st0, tbl, dir);
       && InodeAt(st, tbl, dir) == d && OneEntry(st0, d.ptr, st, d.ptr, at, Vacated(EntryAt(st0, d.ptr, at)))
       && forall m :: 0 <= m < MAX_LOGICAL ==> Lookup(st, d.ptr, m) == Lookup(st0, d.ptr, m)
  }

  /** Where `other` is found after the entry at `at`, the first one for `name`, was removed. */
  ghost predicate NameRemoved(st0: Store, st: Store, d: Inode, at: nat, name: seq<byte>, other: seq<byte>) {
    at < d.size / 64 && Find(st, d.ptr, d.size / 64, other, 0) == Find(st0, d.ptr, d.size / 64, other, if other == name then at + 1 else 0)
  }

  /** The names of directory `dir` after the first entry for `name` was removed. */
  ghost predicate NamesRemoved(st0: Store, st: Store, tbl: nat, dir: nat, name: seq<byte>)
    requires dir < MAX_INODES && tbl + 30 <= |st0| == |st|
  {
    var d := InodeAt(st0, tbl, dir);
    var at := Find(st0, d.ptr, d.size / 64, name, 0);
    forall other: seq<byte> :: NameRemoved(st0, st, d, at, name, other)
  }

  lemma UnlinkedNames(st0: Store, st: Store, tbl: nat, dir: nat, at: nat, name: seq<byte>)
    requires Unlinked(st0, st, tbl, dir, at)
    requires var d := InodeAt(st0, tbl, dir); at == Find(st0, d.ptr, d.size / 64, name, 0) < d.size / 64
    ensures NamesRemoved(st0, st, tbl, dir, name)
  {
    hide InodeAt, Lookup, Find, OneEntry, NameRemoved;
    var d := InodeAt(st0, tbl, dir);
    forall other: seq<byte> ensures NameRemoved(st0, st, d, at, name, other) {
      UnlinkedName(st0, st, d, at, Vacated(EntryAt(st0, d.ptr, at)), name, other);
    }
  }

  lemma UnlinkedName(st0: Store, st: Store, d: Inode, at: nat, n: Entry, name: seq<byte>, other: seq<byte>)
    requires |st| == |st0| && OneEntry(st0, d.ptr, st, d.ptr, at, n) && n.ino == 0 && at == Find(st0, d.ptr, d.size / 64, name, 0) < d.size / 64
    requires forall m :: 0 <= m < MAX_LOGICAL ==> Lookup(st, d.ptr, m) == Lookup(st0, d.ptr, m)
    ensures NameRemoved(st0, st, d, at, name, other)
  {
    hide Lookup, Find, OneEntry, EntryAt;
    FindRemoved(st0, d.ptr, d.size / 64, st, n, name, other);
  }

  lemma UnlinkedBy(st0: Store, bm: Bits, st: Store, tbl: nat, ds: nat, dir: nat, at: nat)
    requires DiskOk(st0, bm, tbl, ds) && Layout(st, tbl, ds) && |st| == |st0| <= |bm| && dir < MAX_INODES && at / PER_DIR_BLOCK < MAX_LOGICAL
    requires OnlyFile(st0, bm, st, bm, tbl, ds, dir, InodeAt(st0, tbl, dir))
    requires var d := InodeAt(st0, tbl, dir); OneEntry(st0, d.ptr, st, d.ptr, at, Vacated(EntryAt(st0, d.ptr, at))) && SameFile(st0, st, d.ptr)
    ensures Unlinked(st0, st, tbl, dir, at)
  {
    hide InodeAt, FsInv, OneEntry, OnlyFile, FileOk, FileIn, At, SlotOf;
    var d := InodeAt(st0, tbl, dir);
    TableEntry(st0, bm, st, bm, tbl, ds, dir, d);
    forall m | 0 <= m < MAX_LOGICAL ensures Lookup(st, d.ptr, m) == Lookup(st0, d.ptr, m) { assert Proper(SlotOf(m)); }
  }

  lemma SolidUnlinked(st0: Store, st: Store, tbl: nat, dir: nat, at: nat)
    requires Unlinked(st0, st, tbl, dir, at) && SolidDir(st0, tbl, dir)
    ensures SolidDir(st, tbl, dir)
  {
    hide InodeAt, Lookup, OneEntry;
    var d := InodeAt(st0, tbl, dir);
    forall e | 0 <= e < d.size / 64 ensures Present(st, d.ptr, e) {
      assert Present(st0, d.ptr, e) && Lookup(st, d.ptr, e / PER_DIR_BLOCK) == Lookup(st0, d.ptr, e / PER_DIR_BLOCK);
    }
  }

  /** The name is in the directory and stands for an inode that is no directory with entries before its first hole. */
  ghost predicate Deletable(st: Store, tbl: nat, dir: nat, name: seq<byte>) {
    && dir < MAX_INODES && tbl + 30 <= |st| && InodeAt(st, tbl, dir).kind == TYPE_DIR
    && var d := InodeAt(st, tbl, dir);
       var e := Find(st, d.ptr, d.size / 64, name, 0);
       && e < d.size / 64 && EntryAt(st, d.ptr, e).ino < MAX_INODES
       && var c := InodeAt(st, tbl, EntryAt(st, d.ptr, e).ino);
          c.kind == TYPE_DIR ==> LooksEmpty(st, c.ptr, c.size / 64)
  }

  lemma DeleteDone(st0: Store, bm0: Bits, st1: Store, st: Store, bm: Bits, tbl: nat, ds: nat, parent: nat, child: nat, at: nat, ibm0: Bits, ibm: Bits)
    requires DiskOk(st0, bm0, tbl, ds) && DiskOk(st1, bm0, tbl, ds) && DiskOk(st, bm, tbl, ds)
    requires |st0| == |st1| == |st| <= |bm0| && |st| <= |bm| && parent < MAX_INODES && 0 < child < MAX_INODES
    requires OnlyFile(st0, bm0, st1, bm0, tbl, ds, parent, InodeAt(st0, tbl, parent))
    requires Unlinked(st0, st1, tbl, parent, at)
    requires OnlyFile(st1, bm0, st, bm, tbl, ds, child, EmptyInode())
    requires |ibm0| == MAX_INODES && ibm == ibm0[child := false]
    ensures Kept(st0, st, tbl, {parent, child}) && InodeAt(st, tbl, child) == EmptyInode()
    ensures parent != child ==> Unlinked(st0, st, tbl, parent, at)
    ensures TidyTable(st0, tbl, ibm0) ==> TidyTable(st, tbl, ibm)
    ensures Leaked(st, TableRoots(st, tbl), bm, ds) == Leaked(st0, TableRoots(st0, tbl), bm0, ds)
  {
    var p := InodeAt(st0, tbl, parent);
    hide InodeAt, SameMap, Leaked, Untouched, FsInv, Unused, TableRoots, OneEntry, EmptyInode, Unlinked;
    KeptOnly(st0, bm0, st1, bm0, tbl, ds, parent, p);
    KeptOnly(st1, bm0, st, bm, tbl, ds, child, EmptyInode());
    KeptTrans(st0, st1, st, tbl, {parent}, {child});
    assert {parent as int} + {child as int} == {parent as int, child as int};
    TableEntry(st0, bm0, st1, bm0, tbl, ds, parent, p);
    TableEntry(st1, bm0, st, bm, tbl, ds, child, EmptyInode());
    if parent != child {
      assert KeptOne(st1, st, tbl, parent);
      TableFile(st1, bm0, tbl, ds, parent);
      assert Table(st1, tbl)[parent] == InodeAt(st1, tbl, parent);
      UnlinkedFrame(st0, st1, st, tbl, parent, at);
    }
    if TidyTable(st0, tbl, ibm0) {
      TidyOnly(st0, bm0, st1, bm0, tbl, ds, parent, p, ibm0, ibm0);
      EmptyUnused();
      TidyOnly(st1, bm0, st, bm, tbl, ds, child, EmptyInode(), ibm0, ibm);
    }
  }

  lemma UnlinkedFrame(st0: Store, st1: Store, st: Store, tbl: nat, dir: nat, at: nat)
    requires Unlinked(st0, st1, tbl, dir, at) && |st| == |st1| && KeptOne(st1, st, tbl, dir)
    requires FileOk(st1, InodeAt(st1, tbl, dir).ptr) && Untouched(st1, st, InodeAt(st1, tbl, dir).ptr)
    ensures Unlinked(st0, st, tbl, dir, at)
  {
    hide InodeAt, Lookup, FileOk, Untouched, DirEntry, EntryAt;
    var d := InodeAt(st0, tbl, dir);
    OneEntryFrame(st0, d.ptr, st1, d.ptr, st, at, Vacated(EntryAt(st0, d.ptr, at)));
  }

  /** Deleting keeps every directory without holes. */
  lemma DeleteSolid(st0: Store, st: Store, tbl: nat, parent: nat, child: nat, at: nat)
    requires Kept(st0, st, tbl, {parent, child}) && parent < MAX_INODES && child < MAX_INODES && AllSolid(st0, tbl)
    requires InodeAt(st, tbl, child) == EmptyInode() && (parent != child ==> Unlinked(st0, st, tbl, parent, at))
    ensures AllSolid(st, tbl)
  {
    hide InodeAt, KeptOne, SolidDir, OneEntry, Lookup;
    SolidEmpty(st, tbl, child);
    if parent != child && InodeAt(st, tbl, parent).kind == TYPE_DIR { SolidUnlinked(st0, st, tbl, parent, at); }
    AllSolidKept(st0, st, tbl, {parent, child});
  }

  lemma EmptyUnused()
    ensures Unused(EmptyInode())
  {
  }

  // ----- What a consistent disk means -----

  /** No block is reached from two places: not two files, not two positions, not as data and as pointer block. */
  lemma NoSharedBlock(st: Store, bm: Bits, tbl: nat, ds: nat, i: nat, s: Slot, j: nat, t: Slot)
    requires DiskOk(st, bm, tbl, ds) && i < MAX_INODES && j < MAX_INODES && Proper(s) && Proper(t)
    requires At(st, InodeAt(st, tbl, i).ptr, s) != 0 && (i != j || s != t)
    ensures At(st, InodeAt(st, tbl, i).ptr, s) != At(st, InodeAt(st, tbl, j).ptr, t)
    ensures ds <= At(st, InodeAt(st, tbl, i).ptr, s) < |st| <= |bm| && bm[At(st, InodeAt(st, tbl, i).ptr, s)]
  {
    hide Tree, In, InodeAt, FileIn, FileOk, At;
    var tr := TableRoots(st, tbl);
    assert tr[i] == InodeAt(st, tbl, i).ptr && tr[j] == InodeAt(st, tbl, j).ptr;
    AtIn(st, tr[i], s);
    assert Owned(st, tr[i], bm, ds);
    if i == j {
      AtInjective(st, tr[i], s, t);
    } else if At(st, tr[j], t) != 0 {
      AtIn(st, tr[j], t);
    }
  }

  /** Right after formatting, all clear bits are counted and no data block is taken. */
  lemma FreshNothingLeaked(st: Store, bm: Bits, tbl: nat, ds: nat, free: int)
    requires Layout(st, tbl, ds) && |st| <= |bm| && free == |Free(bm, ds, |st|)| && free == |st| - ds
    ensures Leaked(st, TableRoots(st, tbl), bm, ds) == {}
  {
    hide InodeAt, Reachable;
    AllClear(bm, ds, |st|);
  }

  lemma {:induction false} FreeBound(bm: Bits, lo: nat, hi: nat)
    requires lo <= hi <= |bm|
    ensures |Free(bm, lo, hi)| <= hi - lo
    decreases hi - lo
  {
    if lo == hi {
      assert Free(bm, lo, hi) == {};
    } else {
      FreeBound(bm, lo, hi - 1);
      assert Free(bm, lo, hi) == Free(bm, lo, hi - 1) + (if bm[hi - 1] then {} else {hi - 1});
    }
  }

  lemma {:induction false} AllClear(bm: Bits, lo: nat, hi: nat)
    requires lo <= hi <= |bm| && |Free(bm, lo, hi)| == hi - lo
    ensures forall b :: lo <= b < hi ==> !bm[b]
    decreases hi - lo
  {
    if lo < hi {
      FreeBound(bm, lo, hi - 1);
      assert Free(bm, lo, hi) == Free(bm, lo, hi - 1) + (if bm[hi - 1] then {} else {hi - 1});
      AllClear(bm, lo, hi - 1);
    }
  }
}
