/**
 Short runs of LimnFS on a new disk that show where a law of directories stops.
 */
module Pitfalls {
  import opened BlockTree
  import opened FileTree
  import opened Inodes
  import opened Accounts
  import opened Trim
  import opened FileData
  import opened Directory
  import opened FsStep
  import opened Names
  import Fs = LimnFs

  /** A directory without blocks, whatever its size. */
  lemma HollowDirectory(st: Store, total: nat)
    requires total <= PER_DIR_BLOCK * MAX_LOGICAL
    ensures FindUnused(st, NoRoots(), total, 0) == total && Extent(st, NoRoots(), total, 0) == 0
    ensures forall name: seq<byte> :: Find(st, NoRoots(), total, name, 0) == total
    ensures forall n :: 0 <= n < MAX_LOGICAL ==> Lookup(st, NoRoots(), n) == 0
  {
    assert total > 0 ==> Lookup(st, NoRoots(), 0) == 0;
  }

  /** A new disk whose root directory was grown to `size` bytes without getting any block. */
  method HollowRoot(fs: Fs.LimnFs, size: u32)
    requires fs.Backed() && |fs.store| < 0x1_0000_0000 && |fs.store| > DataStart(|fs.store|) && fs.hint <= |fs.store|
    modifies fs, fs.bcache, fs.bcache.cache, fs.bcache.table
    ensures fs.Valid() && |fs.store| == |old(fs.store)| && fs.freeBlocks == |fs.store| - DataStart(|fs.store|)
    ensures InodeAt(fs.store, fs.tblStart, 0).kind == TYPE_DIR && InodeAt(fs.store, fs.tblStart, 0).size == size
    ensures InodeAt(fs.store, fs.tblStart, 0).ptr == NoRoots() && Fs.NextIno(fs.inodeBitmap) == 1 && fs.Tidy()
    ensures Leaked(fs.store, TableRoots(fs.store, fs.tblStart), fs.bitmap, fs.dataStart) == {}
  {
    hide fs.Backed, DiskOk, Free, InodeAt, Leaked, TableRoots, Untouched, DataStart;
    fs.BackedSize();
    fs.Format(|fs.bcache.disk|);
    FreshNothingLeaked(fs.store, fs.bitmap, fs.tblStart, fs.dataStart, fs.freeBlocks);
    var ok := fs.Truncate(0, size);
  }

  /**
   A name entered behind a hole is not found, and the directory looks empty: the root directory is grown
   by one block that it does not have, and the next creation succeeds in the block after it.
   */
  method EnteredNotFound(fs: Fs.LimnFs) returns (ino: int, r: int)
    requires fs.Backed() && |fs.store| < 0x1_0000_0000 && |fs.store| > DataStart(|fs.store|) && fs.hint <= |fs.store|
    modifies fs, fs.bcache, fs.bcache.cache, fs.bcache.table
    ensures fs.Valid() && ino == 1 && r == -1
    ensures var d := InodeAt(fs.store, fs.tblStart, 0);
            LooksEmpty(fs.store, d.ptr, d.size / 64) && !NothingLive(fs.store, d.ptr, d.size / 64)
  {
    hide fs.Backed, DiskOk, Free, InodeAt, Leaked, TableRoots, Untouched, DataStart, Kept, AllSolid, TidyTable, Fs.CreateCosts, Fs.NextIno, Fs.Lost;
    HollowRoot(fs, 4096);
    ghost var st0, d0 := fs.store, InodeAt(fs.store, fs.tblStart, 0);
    HollowDirectory(st0, 64);
    MissingDirect(st0, d0.ptr, 1);
    hide Find, FindUnused, Extent, Lookup, Missing, FreshInode, Linked, NamesAdded, LooksEmpty, NothingLive, Fs.Consistent;
    fs.NowConsistent();
    assert Fs.Admissible(fs.Now(), 0, [97], false) && Room(st0, d0, fs.freeBlocks);
    ghost var at, lost;
    ino, at, lost := fs.Create(0, [97], false);
    BehindHole(st0, fs.store, fs.tblStart, at);
    r := fs.DirLookup(0, [97]);
  }

  lemma BehindHole(st0: Store, st: Store, tbl: nat, at: nat)
    requires tbl + 30 <= |st0| == |st| && InodeAt(st0, tbl, 0).ptr == NoRoots() && InodeAt(st0, tbl, 0).size == 4096
    requires Linked(st0, st, tbl, 0, at, Named(1, TYPE_FILE, [97])) && NamesAdded(st0, st, tbl, 0, at, [97])
    ensures var d := InodeAt(st, tbl, 0);
            && Find(st, d.ptr, d.size / 64, [97], 0) == d.size / 64
            && LooksEmpty(st, d.ptr, d.size / 64) && !NothingLive(st, d.ptr, d.size / 64)
  {
    var d0, d := InodeAt(st0, tbl, 0), InodeAt(st, tbl, 0);
    HollowDirectory(st0, 64);
    hide InodeAt, Find, FindUnused, Extent, Lookup, LooksEmpty, NothingLive, OneEntry, Extended;
    assert NameAdded(st0, d0.ptr, d0.size / 64, st, d.ptr, d.size / 64, at, [97], [97]);
    StillHollow(st0, st, d.ptr, Named(1, TYPE_FILE, [97]));
  }

  lemma StillHollow(st0: Store, st: Store, ptr: Roots, n: Entry)
    requires EntryAdded(st0, NoRoots(), 64, st, ptr, 64, n) && n.ino != 0
    ensures LooksEmpty(st, ptr, 65) && !NothingLive(st, ptr, 65)
  {
    HollowDirectory(st0, 64);
    hide Lookup, EntryAt, FindUnused, Extent;
    assert Lookup(st, ptr, 0) == Lookup(st0, NoRoots(), 0);
    EntriesAre(st0, NoRoots(), st, ptr, 64, n, 64);
  }

  /**
   A failed creation loses a block: on a disk with two free blocks the root directory is grown to the
   double indirect range without having any block.
   */
  method FailedAndLost(fs: Fs.LimnFs) returns (ino: int)
    requires fs.Backed() && |fs.store| == 37 && fs.hint <= 37
    modifies fs, fs.bcache, fs.bcache.cache, fs.bcache.table
    ensures fs.Valid() && ino == -1
    ensures Leaked(fs.store, TableRoots(fs.store, fs.tblStart), fs.bitmap, fs.dataStart) != {}
  {
    assert DataStart(37) == 35;
    hide fs.Backed, DiskOk, Free, InodeAt, Leaked, TableRoots, Untouched, DataStart, Kept, AllSolid, TidyTable, Fs.NextIno;
    HollowRoot(fs, 4235264);
    ghost var st0, d0 := fs.store, InodeAt(fs.store, fs.tblStart, 0);
    HollowDirectory(st0, 66176);
    hide Find, FindUnused, Extent, Lookup, Missing, FreshInode, NamesAdded;
    fs.NowConsistent();
    RoomLosesNot(st0, d0, 2);
    assert Fs.Admissible(fs.Now(), 0, [97], false) && Loses(st0, d0, 2);
    ghost var at, lost;
    ino, at, lost := fs.Create(0, [97], false);
  }
}
