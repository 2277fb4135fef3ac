/**
 LimnFS on top of the block cache.  `store` is what the cache presents; `bcache.disk` is what the device
 holds.  `scratch2` and `scratch3` are the static scratch buffers: parent and child pointer blocks are
 read into the same one.
 */
module LimnFs {
  import opened BlockTree
  import opened FileTree
  import opened Inodes
  import opened Accounts
  import opened Trim
  import opened Shrink
  import opened Release
  import opened FsStep
  import opened FileData
  import opened ReadPath
  import opened Directory
  import opened Names
  import Cache = BCache

  /** First clear bit in `[lo, hi)`, or `hi`. */
  function FirstClear(bm: Bits, lo: nat, hi: nat): (r: nat)
    requires lo <= hi <= |bm|
    ensures lo <= r <= hi && (r < hi ==> !bm[r]) && forall b :: lo <= b < r ==> bm[b]
    decreases hi - lo
  {
    if lo == hi || !bm[lo] then lo else FirstClear(bm, lo + 1, hi)
  }

  ghost function ClearBits(bm: Bits): set<int> {
    set i | 0 <= i < |bm| && !bm[i]
  }

  lemma {:induction false} NoneTaken(bm: Bits)
    requires forall i :: 0 <= i < |bm| ==> !bm[i]
    ensures |ClearBits(bm)| == |bm|
  {
    if bm != [] {
      var n := |bm| - 1;
      NoneTaken(bm[..n]);
      assert ClearBits(bm) == ClearBits(bm[..n]) + {n};
    } else {
      assert ClearBits(bm) == {};
    }
  }

  lemma BitTaken(bm: Bits, i: nat)
    requires i < |bm| && !bm[i]
    ensures |ClearBits(bm[i := true])| == |ClearBits(bm)| - 1
  {
    assert ClearBits(bm[i := true]) == ClearBits(bm) - {i};
  }

  lemma BitCleared(bm: Bits, i: nat)
    requires i < |bm|
    ensures |ClearBits(bm[i := false])| == |ClearBits(bm)| + if bm[i] then 1 else 0
  {
    assert ClearBits(bm[i := false]) == ClearBits(bm) + {i};
  }

  function Max(a: nat, b: nat): nat { if a > b then a else b }

  /** The block that next-fit allocation picks: from the hint to the end, then from the start to the hint. */
  function NextFit(bm: Bits, ds: nat, total: nat, hint: nat): (r: nat)
    requires ds <= total <= |bm| && hint <= |bm|
  {
    var start := Max(hint, ds);
    var a := if start <= total then FirstClear(bm, start, total) else total;
    if a < total then a
    else
      var b := FirstClear(bm, ds, start);
      if b < start then b else 0
  }

  /** `b` is the least clear block in `[lo, hi)`. */
  ghost predicate LeastClear(bm: Bits, lo: nat, hi: nat, b: nat)
    requires hi <= |bm|
  {
    lo <= b < hi && !bm[b] && forall c :: lo <= c < b ==> bm[c]
  }

  ghost predicate AllTaken(bm: Bits, lo: nat, hi: nat)
    requires hi <= |bm|
  {
    forall c :: lo <= c < hi ==> bm[c]
  }

  /** Next fit without its scans: the least clear data block from the hint on, else the least one, else 0. */
  ghost predicate FitsNext(bm: Bits, ds: nat, total: nat, hint: nat, b: nat)
    requires total <= |bm|
  {
    && (LeastClear(bm, Max(hint, ds), total, b) || AllTaken(bm, Max(hint, ds), total))
    && (AllTaken(bm, Max(hint, ds), total) ==> LeastClear(bm, ds, total, b) || (b == 0 && AllTaken(bm, ds, total)))
  }

  lemma NextFitFits(bm: Bits, ds: nat, total: nat, hint: nat)
    requires 0 < ds <= total <= |bm| && hint <= total
    ensures FitsNext(bm, ds, total, hint, NextFit(bm, ds, total, hint))
  {
    var start := Max(hint, ds);
    if FirstClear(bm, start, total) == total {
      var b := FirstClear(bm, ds, start);
      assert AllTaken(bm, start, total);
      if b < start { assert LeastClear(bm, ds, total, b); }
    } else {
      assert LeastClear(bm, start, total, FirstClear(bm, start, total));
    }
  }

  /** With the hint on the disk, allocation stays on the disk and fails only when the disk is full. */
  lemma NextFitInRange(bm: Bits, ds: nat, total: nat, hint: nat)
    requires 0 < ds <= total <= |bm| && hint <= total
    ensures NextFit(bm, ds, total, hint) == 0 ==> forall b :: ds <= b < total ==> bm[b]
    ensures NextFit(bm, ds, total, hint) != 0 ==>
              ds <= NextFit(bm, ds, total, hint) < total && !bm[NextFit(bm, ds, total, hint)]
  {
  }

  /** And only then: with a hint left over from a larger disk, a full disk makes it run past the end. */
  lemma NextFitExact(ds: nat, total: nat, hint: nat, bits: nat)
    requires 0 < ds <= total <= bits && hint <= bits
    ensures hint <= total <==> forall bm: Bits :: |bm| == bits ==> NextFit(bm, ds, total, hint) < total
  {
    if hint <= total {
      forall bm: Bits | |bm| == bits ensures NextFit(bm, ds, total, hint) < total {
        NextFitInRange(bm, ds, total, hint);
      }
    } else {
      var full: Bits := seq(bits, i => i < total);
      assert FirstClear(full, ds, hint) == total by { FirstClearAt(full, ds, hint, total); }
      assert NextFit(full, ds, total, hint) == total;
    }
  }

  lemma {:induction false} FirstClearAt(bm: Bits, lo: nat, hi: nat, at: nat)
    requires lo <= at < hi <= |bm| && !bm[at] && forall b :: lo <= b < at ==> bm[b]
    ensures FirstClear(bm, lo, hi) == at
    decreases at - lo
  {
    if lo < at { FirstClearAt(bm, lo + 1, hi, at); }
  }

  /** The inode that the next creation takes: the first one from 1 on whose bit is clear, else `MAX_INODES`. */
  function NextIno(ibm: Bits): (i: nat)
    requires |ibm| == MAX_INODES
    ensures 1 <= i <= MAX_INODES && (i < MAX_INODES ==> !ibm[i]) && forall j :: 1 <= j < i ==> ibm[j]
  {
    FirstClear(ibm, 1, MAX_INODES)
  }

  /** The state of the file system between two calls. */
  datatype Disk = Disk(st: Store, bm: Bits, ibm: Bits, free: int, tbl: nat, ds: nat)

  ghost predicate Consistent(d: Disk) {
    DiskOk(d.st, d.bm, d.tbl, d.ds) && |d.st| <= |d.bm| && |d.ibm| == MAX_INODES && d.free >= 0
  }

  /** Taken blocks that no inode reaches. */
  ghost function Lost(d: Disk): set<int>
    requires Consistent(d)
  {
    Leaked(d.st, TableRoots(d.st, d.tbl), d.bm, d.ds)
  }

  /** The directory that a creation adds its entry to: an unused number may turn out to be the new inode itself. */
  ghost function Target(d: Disk, parent: u32, dir: bool): Inode
    requires Consistent(d) && parent < MAX_INODES
  {
    if parent == NextIno(d.ibm) then FreshInode(parent, dir) else InodeAt(d.st, d.tbl, parent)
  }

  /** There are a free inode, a legal name and a directory. */
  ghost predicate Admissible(d: Disk, parent: u32, name: seq<byte>, dir: bool)
    requires Consistent(d)
  {
    NextIno(d.ibm) < MAX_INODES && parent < MAX_INODES && 0 < |name| < NAME_MAX && Target(d, parent, dir).kind == TYPE_DIR
  }

  /** The next inode still owns blocks, or the addition of the entry loses one. */
  ghost predicate CreateCosts(d: Disk, parent: u32, name: seq<byte>, dir: bool)
    requires Consistent(d)
  {
    NextIno(d.ibm) < MAX_INODES &&
    (!NoBlocks(InodeAt(d.st, d.tbl, NextIno(d.ibm)).ptr) ||
     (Admissible(d, parent, name, dir) && Loses(d.st, Target(d, parent, dir), d.free)))
  }

  /** Whether a call leaves blocks behind that no inode reaches: only a creation can. */
  ghost predicate Costs(d: Disk, op: Op)
    requires Consistent(d)
  {
    op.OpCreate? && CreateCosts(d, op.parent, op.name, op.dir)
  }

  /** On a disk whose unused inodes own nothing, that is exactly the lost pointer block of a failed addition. */
  lemma TidyCosts(d: Disk, parent: u32, name: seq<byte>, dir: bool)
    requires Consistent(d) && TidyTable(d.st, d.tbl, d.ibm)
    ensures CreateCosts(d, parent, name, dir) <==> Admissible(d, parent, name, dir) && Loses(d.st, Target(d, parent, dir), d.free)
  {
    hide DiskOk, InodeAt, Loses, Admissible;
    var i := NextIno(d.ibm);
    if i < MAX_INODES { assert Unused(InodeAt(d.st, d.tbl, i)); }
    assert Admissible(d, parent, name, dir) ==> i < MAX_INODES by { AdmissibleIno(d, parent, name, dir); }
  }

  lemma AdmissibleIno(d: Disk, parent: u32, name: seq<byte>, dir: bool)
    requires Consistent(d)
    ensures Admissible(d, parent, name, dir) ==> NextIno(d.ibm) < MAX_INODES
  {
  }

  /** Storing the fresh inode leaves the target directory and its room as they were. */
  lemma TargetRoom(d: Disk, st1: Store, ino: nat, parent: u32, dir: bool)
    requires Consistent(d) && ino == NextIno(d.ibm) < MAX_INODES && DiskOk(st1, d.bm, d.tbl, d.ds) && |st1| == |d.st|
    requires Reset(d.st, st1, d.bm, d.tbl, d.ds, ino, FreshInode(parent, dir))
    ensures parent < MAX_INODES ==>
              var n := Target(d, parent, dir);
              && InodeAt(st1, d.tbl, parent) == n && Room(st1, n, d.free) == Room(d.st, n, d.free) && Loses(st1, n, d.free) == Loses(d.st, n, d.free)
  {
    hide InodeAt, Leaked, Untouched, FsInv, Kept, Room, Loses, FileOk, FileBlocks, FreshInode;
    if parent == ino {
      assert Table(st1, d.tbl)[ino] == InodeAt(st1, d.tbl, ino);
      FreshRoom(d.st, st1, parent, dir, d.free);
    } else if parent < MAX_INODES {
      ResetKeeps(d.st, st1, d.bm, d.tbl, d.ds, ino, FreshInode(parent, dir), parent);
      TableFile(d.st, d.bm, d.tbl, d.ds, parent);
      SameRoom(d.st, st1, InodeAt(d.st, d.tbl, parent), d.free);
    }
  }

  /** A creation entered `ino` under `name`; `st1` is the disk with the fresh inode stored. */
  ghost predicate Entered(d0: Disk, d: Disk, parent: u32, name: seq<byte>, dir: bool, ino: nat, at: nat, st1: Store)
    requires Consistent(d0) && Consistent(d)
  {
    && ino == NextIno(d0.ibm) < MAX_INODES && d.ibm == d0.ibm[ino := true] && parent < MAX_INODES
    && d.tbl == d0.tbl && d.ds == d0.ds && |d.st| == |d0.st| == |st1| && Kept(d0.st, d.st, d.tbl, {ino, parent as int})
    && (ino != parent ==> InodeAt(d.st, d.tbl, ino) == FreshInode(parent, dir) && Linked(d0.st, d.st, d.tbl, parent, at, Named(ino, KindOf(dir), name)))
    && (ino == parent ==> InodeAt(st1, d.tbl, ino) == FreshInode(parent, dir) && Linked(st1, d.st, d.tbl, ino, at, Named(ino, KindOf(dir), name)))
  }

  /**
   The new inode is an empty file or directory without blocks that records its parent, and the entry
   at `at` of the parent has its number, its type and its name.
   */
  ghost predicate FreshEntry(st: Store, tbl: nat, ino: nat, parent: nat, dir: bool, at: nat, name: seq<byte>) {
    && ino < MAX_INODES && parent < MAX_INODES && tbl + 30 <= |st| && at / PER_DIR_BLOCK < MAX_LOGICAL
    && var n, e := InodeAt(st, tbl, ino), EntryAt(st, InodeAt(st, tbl, parent).ptr, at);
       && n.kind == (if dir then TYPE_DIR else TYPE_FILE) && n.mode == (if dir then 7 else 6) && n.size == 0 && n.parent == parent
       && (forall r :: 0 <= r < 13 ==> n.ptr[r] == 0) && n.blockCount == 0 && n.uid == 0 && n.gid == 0
       && e.ino == ino && e.kind == n.kind && e.name == name && e.len == |name|
  }

  lemma FreshEntered(st0: Store, st: Store, tbl: nat, ino: nat, parent: u32, dir: bool, at: nat, name: seq<byte>)
    requires 0 < ino < MAX_INODES && tbl + 30 <= |st| && InodeAt(st, tbl, ino) == FreshInode(parent, dir)
    requires Linked(st0, st, tbl, parent, at, Named(ino, KindOf(dir), name))
    ensures FreshEntry(st, tbl, ino, parent, dir, at, name)
  {
    hide InodeAt, EntryAt, FindUnused, Lookup;
    var d0, d := InodeAt(st0, tbl, parent), InodeAt(st, tbl, parent);
    EntriesAre(st0, d0.ptr, st, d.ptr, at, Named(ino, KindOf(dir), name), at);
  }

  /** A creation failed: the inode it took, if any, is empty again, and every other one is kept. */
  ghost predicate Unentered(d0: Disk, d: Disk)
    requires Consistent(d0) && Consistent(d)
  {
    && d.ibm == d0.ibm && d.tbl == d0.tbl && d.ds == d0.ds && |d.st| == |d0.st| && Kept(d0.st, d.st, d.tbl, {NextIno(d0.ibm) as int})
    && if NextIno(d0.ibm) < MAX_INODES then InodeAt(d.st, d.tbl, NextIno(d0.ibm)) == EmptyInode() else d.st == d0.st
  }

  lemma EnteredBy(d0: Disk, d: Disk, parent: u32, name: seq<byte>, dir: bool, ino: nat, at: nat, st1: Store)
    requires Consistent(d0) && Consistent(d) && ino == NextIno(d0.ibm) < MAX_INODES && d.ibm == d0.ibm[ino := true] && parent < MAX_INODES
    requires d.tbl == d0.tbl && d.ds == d0.ds && |d.st| == |d0.st| == |st1| && DiskOk(st1, d0.bm, d0.tbl, d0.ds)
    requires Reset(d0.st, st1, d0.bm, d0.tbl, d0.ds, ino, FreshInode(parent, dir))
    requires DirAdded(st1, d0.bm, d.st, d.bm, d.tbl, d.ds, parent, at, Named(ino, KindOf(dir), name))
    ensures Entered(d0, d, parent, name, dir, ino, at, st1) && Lost(d) == Lost(d0) + FileBlocks(d0.st, InodeAt(d0.st, d0.tbl, ino).ptr)
  {
    hide FsInv, InodeAt, Kept, Reset, DirAdded, Leaked, TableRoots, FileBlocks, FreshInode, Linked;
    CreateDone(d0.st, d0.bm, st1, d.st, d.bm, d.tbl, d.ds, ino, parent, dir, at, name);
  }

  lemma UnenteredBy(d0: Disk, d: Disk, ino: nat)
    requires Consistent(d0) && Consistent(d) && ino == NextIno(d0.ibm) < MAX_INODES && d.ibm == d0.ibm[ino := true][ino := false]
    requires d.tbl == d0.tbl && d.ds == d0.ds && |d.st| == |d0.st|
    requires Kept(d0.st, d.st, d.tbl, {ino}) && InodeAt(d.st, d.tbl, ino) == EmptyInode()
    ensures Unentered(d0, d)
  {
    hide DiskOk, InodeAt, Kept, EmptyInode;
    assert d0.ibm[ino := true][ino := false] == d0.ibm;
  }

  /** What is lost is the next inode's blocks and those of a failed addition. */
  lemma CostIs(d: Disk, parent: u32, name: seq<byte>, dir: bool, own: set<int>, added: set<int>)
    requires Consistent(d) && NextIno(d.ibm) < MAX_INODES && (own == {} <==> NoBlocks(InodeAt(d.st, d.tbl, NextIno(d.ibm)).ptr))
    requires |added| == if Admissible(d, parent, name, dir) && Loses(d.st, Target(d, parent, dir), d.free) then 1 else 0
    ensures own + added != {} <==> CreateCosts(d, parent, name, dir)
  {
    hide DiskOk, InodeAt, NoBlocks, Loses, Target, Admissible;
    if own + added == {} { assert own == {} && added == {}; }
  }

  lemma NoInode(d: Disk, parent: u32, name: seq<byte>, dir: bool)
    requires Consistent(d) && NextIno(d.ibm) == MAX_INODES
    ensures !Admissible(d, parent, name, dir) && !CreateCosts(d, parent, name, dir)
  {
  }

  /** A call that changes the data of a directory from outside. */
  ghost predicate Touches(d: Disk, op: Op)
    requires Consistent(d)
  {
    match op
    case OpTruncate(ino, _) => ino < MAX_INODES && InodeAt(d.st, d.tbl, ino).kind == TYPE_DIR
    case OpWrite(ino, _, _) => ino < MAX_INODES && InodeAt(d.st, d.tbl, ino).kind == TYPE_DIR
    case _ => false
  }

  /** What one call does to the lost blocks and to the directories without holes. */
  ghost predicate StepOf(d: Disk, op: Op, d': Disk) {
    && Consistent(d) && Consistent(d')
    && (if op.OpFormat? then Lost(d') == {} else Lost(d) <= Lost(d') && (Lost(d') != Lost(d) <==> Costs(d, op)))
    && (AllSolid(d.st, d.tbl) && !Touches(d, op) ==> AllSolid(d'.st, d'.tbl))
  }

  ghost predicate RunOf(ops: seq<Op>, tr: seq<Disk>) {
    |tr| == |ops| + 1 && forall i, j :: 0 <= i < |ops| && j == i + 1 ==> StepOf(tr[i], ops[i], tr[j])
  }

  /** A run none of whose calls loses a block loses none, and one that touches no directory from outside leaves no hole in any. */
  lemma {:induction false} RunLoses(ops: seq<Op>, tr: seq<Disk>, n: nat)
    requires RunOf(ops, tr) && n <= |ops| && Consistent(tr[0])
    ensures Consistent(tr[n])
    ensures (forall i :: 0 <= i < n ==> Consistent(tr[i]) && !Costs(tr[i], ops[i])) ==> Lost(tr[n]) <= Lost(tr[0])
    ensures AllSolid(tr[0].st, tr[0].tbl) && (forall i :: 0 <= i < n ==> Consistent(tr[i]) && !Touches(tr[i], ops[i])) ==>
              AllSolid(tr[n].st, tr[n].tbl)
    decreases n
  {
    hide Consistent, Costs, Touches, AllSolid, Lost;
    if n > 0 {
      var i := n - 1;
      RunLoses(ops, tr, i);
      assert StepOf(tr[i], ops[i], tr[n]);
    }
  }

  class LimnFs {
    var total: u32
    var tblStart: nat
    var dataStart: nat
    var freeBlocks: int
    var freeInodes: int
    var bitmap: Bits
    var inodeBitmap: Bits
    var hint: nat
    const bcache: Cache.BCache<Block>
    ghost var store: Store
    var scratch: Block
    var scratch2: Block
    var scratch3: Block

    constructor (cache: Cache.BCache<Block>)
      requires cache.Valid()
      ensures bcache == cache && store == cache.logical && Backed() && hint == 0
    {
      bcache, store, hint := cache, cache.logical, 0;
      total, tblStart, dataStart, freeBlocks, freeInodes, bitmap, inodeBitmap := 0, 0, 0, 0, 0, [], [];
      scratch, scratch2, scratch3 := ZERO_BLOCK, ZERO_BLOCK, ZERO_BLOCK;
    }

    /** The cache is consistent and callers of it see `store`. */
    ghost predicate Backed()
      reads `store, bcache, bcache.cache, bcache.table
    {
      bcache.Valid() && bcache.logical == store && |bcache.disk| == |store|
    }

    ghost predicate Sane()
      reads `total, `tblStart, `dataStart, `freeBlocks, `bitmap, `inodeBitmap, `hint, `store, bcache, bcache.cache, bcache.table
    {
      && Backed() && 0 < tblStart && tblStart + 30 <= dataStart <= total == |store| == |bcache.disk| <= |bitmap|
      && |inodeBitmap| == MAX_INODES && hint <= total
      && freeBlocks == |Free(bitmap, dataStart, total)|
    }

    /** Sane, and every file's blocks are its own, in range and marked. */
    ghost predicate Valid()
      reads `total, `tblStart, `dataStart, `freeBlocks, `bitmap, `inodeBitmap, `hint, `store, bcache, bcache.cache, bcache.table
    {
      Sane() && DiskOk(store, bitmap, tblStart, dataStart)
    }

    /** Inodes that are not in use own no blocks and are no directories. */
    ghost predicate Tidy()
      reads this
    {
      TidyTable(store, tblStart, inodeBitmap)
    }

    /** A scan of the bitmap. */
    method ScanClear(lo: nat, hi: nat) returns (i: nat)
      requires lo <= hi <= |bitmap|
      ensures i == FirstClear(bitmap, lo, hi)
    {
      i := lo;
      while i < hi
        invariant lo <= i <= hi && FirstClear(bitmap, lo, hi) == FirstClear(bitmap, i, hi)
      {
        if !bitmap[i] { return; }
        i := i + 1;
      }
    }

    method MarkTaken(i: nat)
      requires Sane() && dataStart <= i < total && !bitmap[i]
      modifies `bitmap, `freeBlocks, `hint
      ensures Sane() && bitmap == old(bitmap)[i := true] && freeBlocks == old(freeBlocks) - 1 && hint == i + 1
    {
      hide Backed;
      FreeTake(bitmap, dataStart, total, i);
      bitmap := bitmap[i := true];
      freeBlocks := freeBlocks - 1;
      hint := i + 1;
    }

    method AllocBlock() returns (b: u32)
      requires Sane()
      modifies `bitmap, `freeBlocks, `hint
      ensures Sane() && b == NextFit(old(bitmap), dataStart, total, old(hint))
      ensures b != 0 ==> dataStart <= b < total && !old(bitmap[b])
      ensures bitmap == if b == 0 then old(bitmap) else old(bitmap)[b := true]
      ensures freeBlocks == (if b == 0 then 0 else old(freeBlocks) - 1) && (b == 0 ==> old(freeBlocks) == 0)
      ensures hint == if b == 0 then old(hint) else b + 1
      ensures FitsNext(old(bitmap), dataStart, total, old(hint), b)
    {
      hide Backed;
      NextFitFits(bitmap, dataStart, total, hint);
      hide FitsNext;
      var start := if hint >= dataStart then hint else dataStart;
      var i := ScanClear(start, total);
      if i < total {
        MarkTaken(i);
        return i;
      }
      i := ScanClear(dataStart, start);
      if i < start {
        MarkTaken(i);
        return i;
      }
      NextFitInRange(bitmap, dataStart, total, hint);
      assert Free(bitmap, dataStart, total) == {};
      return 0;
    }

    /** Two allocations in a row: the second one goes on behind the first and wraps around to the start. */
    method AllocTwice() returns (b: u32, c: u32)
      requires Sane()
      modifies `bitmap, `freeBlocks, `hint
      ensures Sane()
      ensures b == 0 ==> c == 0 && bitmap == old(bitmap) && AllTaken(bitmap, dataStart, total)
      ensures b != 0 ==> dataStart <= b < total && !old(bitmap[b])
      ensures b != 0 && !AllTaken(old(bitmap), b + 1, total) ==> LeastClear(old(bitmap), b + 1, total, c)
      ensures b != 0 && AllTaken(old(bitmap), b + 1, total) && c != 0 ==> LeastClear(old(bitmap)[b := true], dataStart, total, c)
      ensures b != 0 ==> (c == 0 <==> forall x :: dataStart <= x < total && x != b ==> old(bitmap)[x])
    {
      b := AllocBlock();
      c := AllocBlock();
    }

    /** Freeing a marked block; the caller owes the proof that it is marked. */
    method FreeBlock(b: nat)
      requires Sane() && (dataStart <= b < total ==> bitmap[b])
      modifies `bitmap, `freeBlocks
      ensures Sane()
      ensures bitmap == if dataStart <= b < total then old(bitmap)[b := false] else old(bitmap)
      ensures freeBlocks == if dataStart <= b < total then old(freeBlocks) + 1 else old(freeBlocks)
    {
      hide Backed;
      if b < dataStart || b >= total { return; }
      FreeGive(bitmap, dataStart, total, b);
      bitmap := bitmap[b := false];
      freeBlocks := freeBlocks + 1;
    }

    // ----- The cache and the scratch buffers -----

    lemma BackedSize()
      requires Backed()
      ensures |bcache.disk| == |store|
    {
    }

    /** `bcache_read`. */
    method Fetch(b: nat) returns (d: Block)
      requires Backed() && b < |store|
      modifies bcache, bcache.cache, bcache.table
      ensures Backed() && d == store[b] && Settles(old(bcache.disk), bcache.disk, store) && (old(Sane()) ==> Sane())
    {
      hide Free;
      d := bcache.Read(b);
    }

    /** `bcache_write`. */
    method Put(b: nat, d: Block)
      requires Backed() && b < |store|
      modifies `store, bcache, bcache.cache, bcache.table
      ensures Backed() && store == old(store)[b := d] && (old(Sane()) ==> Sane())
    {
      hide Free;
      bcache.Write(b, d);
      store := store[b := d];
    }

    function Buf(third: bool): Block
      reads this
    {
      if third then scratch3 else scratch2
    }

    /** `bcache_read` into a scratch buffer. */
    method Load(third: bool, b: nat)
      requires Sane() && b < |store|
      modifies `scratch2, `scratch3, bcache, bcache.cache, bcache.table
      ensures Sane() && Buf(third) == store[b]
    {
      hide Backed;
      var d := Fetch(b);
      if third { scratch3 := d; } else { scratch2 := d; }
    }

    method Poke(third: bool, i: nat, v: u32)
      requires i < PTRS
      modifies `scratch2, `scratch3
      ensures Buf(third) == old(Buf(third))[i := v] && (old(Sane()) ==> Sane())
    {
      hide Backed;
      if third { scratch3 := scratch3[i := v]; } else { scratch2 := scratch2[i := v]; }
    }

    /** `bcache_write` from a scratch buffer. */
    method Save(third: bool, b: nat)
      requires Sane() && b < |store|
      modifies `store, bcache, bcache.cache, bcache.table
      ensures Sane() && store == old(store)[b := Buf(third)]
    {
      hide Backed;
      Put(b, if third then scratch3 else scratch2);
    }

    // ----- Finding a block -----

    /** `get_file_block`: the disk block of logical block `n`, 0 for a hole. */
    method GetFileBlock(ptr: Roots, n: nat) returns (b: nat)
      requires Sane() && FileOk(store, ptr) && n < MAX_LOGICAL
      modifies `scratch2, `scratch3, bcache, bcache.cache, bcache.table
      ensures Sane() && b == Lookup(store, ptr, n) && Settles(old(bcache.disk), bcache.disk, store)
    {
      hide Backed, Free;
      if n < DIRECT { return ptr[n]; }
      var idx := n - DIRECT;
      if idx < PTRS && ptr[SINGLE] != 0 {
        scratch2 := Fetch(ptr[SINGLE]);
        WalkOne(store, ptr[SINGLE], idx);
        return scratch2[idx];
      }
      if idx >= PTRS && ptr[DOUBLE] != 0 {
        var d := idx - PTRS;
        if d < PTRS * PTRS {
          b := DoubleEntry(ptr, d);
          return;
        }
      }
      if n >= TRIPLE_BASE && ptr[TRIPLE] != 0 {
        b := TripleEntry(ptr, n - TRIPLE_BASE);
        return;
      }
      return 0;
    }

    method DoubleEntry(ptr: Roots, d: nat) returns (b: nat)
      requires Sane() && FileOk(store, ptr) && d < PTRS * PTRS && ptr[DOUBLE] != 0
      modifies `scratch2, bcache, bcache.cache, bcache.table
      ensures Sane() && b == Walk(store, ptr[DOUBLE], [d / PTRS, d % PTRS]) && Settles(old(bcache.disk), bcache.disk, store)
    {
      hide Backed, Free;
      var p, l1, l2 := ptr[DOUBLE], d / PTRS, d % PTRS;
      scratch2 := Fetch(p);
      ghost var disk := bcache.disk;
      var mid := scratch2[l1];
      PointerInRange(store, ptr, DOUBLE, [l1]);
      WalkTwo(store, p, l1, l2);
      if mid == 0 { return 0; }
      scratch2 := Fetch(mid);
      SettlesTrans(old(bcache.disk), disk, bcache.disk, store);
      return scratch2[l2];
    }

    method TripleEntry(ptr: Roots, d: nat) returns (b: nat)
      requires Sane() && FileOk(store, ptr) && d < PTRS * PTRS * PTRS && ptr[TRIPLE] != 0
      modifies `scratch3, bcache, bcache.cache, bcache.table
      ensures Sane() && b == Walk(store, ptr[TRIPLE], [d / (PTRS * PTRS), d % (PTRS * PTRS) / PTRS, d % (PTRS * PTRS) % PTRS])
      ensures Settles(old(bcache.disk), bcache.disk, store)
    {
      hide Backed, Free;
      var p := ptr[TRIPLE];
      var l1, rem := d / (PTRS * PTRS), d % (PTRS * PTRS);
      var l2, l3 := rem / PTRS, rem % PTRS;
      WalkThree(store, p, l1, l2, l3);
      scratch3 := Fetch(p);
      ghost var disk1 := bcache.disk;
      var dbl := scratch3[l1];
      PointerInRange(store, ptr, TRIPLE, [l1]);
      if dbl == 0 { return 0; }
      scratch3 := Fetch(dbl);
      SettlesTrans(old(bcache.disk), disk1, bcache.disk, store);
      ghost var disk2 := bcache.disk;
      var mid := scratch3[l2];
      PointerInRange(store, ptr, TRIPLE, [l1, l2]);
      WalkTwo(store, p, l1, l2);
      WalkTwo(store, dbl, l2, l3);
      if mid == 0 { return 0; }
      scratch3 := Fetch(mid);
      SettlesTrans(old(bcache.disk), disk2, bcache.disk, store);
      return scratch3[l3];
    }

    // ----- Growing a file -----

    /** Allocates a block and clears it through a scratch buffer. */
    method NewBlock(third: bool) returns (b: u32)
      requires Sane()
      modifies `bitmap, `freeBlocks, `hint, `store, `scratch2, `scratch3, bcache, bcache.cache, bcache.table
      ensures Sane()
      ensures b == 0 ==> bitmap == old(bitmap) && store == old(store)
      ensures b != 0 ==> dataStart <= b < total && !old(bitmap[b]) && bitmap == old(bitmap)[b := true]
      ensures b != 0 ==> store == old(store)[b := ZERO_BLOCK]
      ensures freeBlocks == (if b == 0 then 0 else old(freeBlocks) - 1) && (b == 0 ==> old(freeBlocks) == 0)
    {
      hide Backed;
      b := AllocBlock();
      if b == 0 { return; }
      if third { scratch3 := ZERO_BLOCK; } else { scratch2 := ZERO_BLOCK; }
      Save(third, b);
    }

    /** Allocates the root pointer block `r` of the file unless it has one. */
    method EnsureRoot(ptr: Roots, r: nat, third: bool, ghost st0: Store, ghost ptr0: Roots, ghost bm0: Bits, ghost pend: set<nat>)
      returns (ptr': Roots)
      requires Sane() && DIRECT <= r < 13 && Grow(st0, ptr0, bm0, store, ptr, bitmap, pend)
      modifies `bitmap, `freeBlocks, `hint, `store, `scratch2, `scratch3, bcache, bcache.cache, bcache.table
      ensures Sane() && Grow(st0, ptr0, bm0, store, ptr', bitmap, pend)
      ensures forall b :: b in pend ==> store[b] == old(store)[b]
      ensures FillsRoot(ptr, ptr', r) && ptr'[r] < |store|
      ensures ptr[r] != 0 || old(freeBlocks) == 0 ==> ptr' == ptr && store == old(store) && bitmap == old(bitmap) && freeBlocks == old(freeBlocks)
      ensures ptr[r] == 0 && old(freeBlocks) > 0 ==>
                freeBlocks == old(freeBlocks) - 1 && ptr'[r] != 0 && store[ptr'[r]] == ZERO_BLOCK && !old(bitmap)[ptr'[r]]
      ensures Adds(old(store), old(bitmap), store, bitmap, {})
    {
      hide Backed;
      ptr' := ptr;
      if ptr[r] == 0 {
        var v := NewBlock(third);
        if v == 0 { return; }
        ptr' := ptr[r := v];
        GrowRoot(st0, ptr0, bm0, old(store), ptr, old(bitmap), pend, r, v);
      } else {
        RootInRange(store, ptr, r);
      }
    }

    /** Reads pointer block `q`, stores `blk` in slot `i` and writes the block back. */
    method SetEntry(q: nat, i: nat, blk: u32, third: bool)
      requires Sane() && q < |store| && i < PTRS
      modifies `store, `scratch2, `scratch3, bcache, bcache.cache, bcache.table
      ensures Sane() && store == old(store)[q := old(store)[q][i := blk]]
    {
      hide Backed;
      Load(third, q);
      Poke(third, i, blk);
      Save(third, q);
    }

    /** Reads slot `i` of the pointer block at `path`; allocates the child pointer block if it is missing. */
    method EnsureChild(ptr: Roots, q: nat, i: nat, third: bool, ghost r: nat, ghost path: seq<nat>,
                       ghost st0: Store, ghost ptr0: Roots, ghost bm0: Bits, ghost pend: set<nat>)
      returns (c: u32)
      requires Sane() && DIRECT <= r < 13 && |path| + 1 < Level(r) && i < PTRS
      requires Grow(st0, ptr0, bm0, store, ptr, bitmap, pend)
      requires 0 < q < |store| && q == At(store, ptr, Slot(r, path))
      modifies `bitmap, `freeBlocks, `hint, `store, `scratch2, `scratch3, bcache, bcache.cache, bcache.table
      ensures Sane() && Grow(st0, ptr0, bm0, store, ptr, bitmap, pend)
      ensures c != 0 ==> c == At(store, ptr, Slot(r, path + [i]))
      ensures forall b :: b in pend ==> store[b] == old(store)[b]
      ensures c < |store|
      ensures old(store)[q][i] != 0 || old(freeBlocks) == 0 ==>
                c == old(store)[q][i] && store == old(store) && bitmap == old(bitmap) && freeBlocks == old(freeBlocks)
      ensures old(store)[q][i] == 0 && old(freeBlocks) > 0 ==>
                freeBlocks == old(freeBlocks) - 1 && c != 0 && store[c] == ZERO_BLOCK && !old(bitmap)[c]
      ensures Adds(old(store), old(bitmap), store, bitmap, {q})
    {
      hide Backed, Tree, In, FileIn, FileOk, Owned, SameMap, Free, Walk;
      AtIn(store, ptr, Slot(r, path));
      Load(third, q);
      c := Buf(third)[i];
      if c == 0 {
        c := NewBlock(third);
        if c == 0 { return; }
        SetEntry(q, i, c, third);
        MarkedIn(st0, ptr0, bm0, old(store), ptr, old(bitmap), pend, Slot(r, path));
        GrowChild(st0, ptr0, bm0, old(store), ptr, old(bitmap), pend, r, path, i, c, q, store);
      } else {
        WalkStep(store, ptr[r], path, i);
        AtIn(store, ptr, Slot(r, path + [i]));
      }
    }

    /** Hangs data block `blk` into the single indirect range. */
    method PlaceSingle(ptr: Roots, n: nat, blk: u32, ghost st0: Store, ghost ptr0: Roots, ghost bm0: Bits)
      returns (ok: bool, ptr': Roots)
      requires Sane() && Grow(st0, ptr0, bm0, store, ptr, bitmap, {blk as nat})
      requires DIRECT <= n < DOUBLE_BASE && Lookup(st0, ptr0, n) == 0
      modifies `bitmap, `freeBlocks, `hint, `store, `scratch2, `scratch3, bcache, bcache.cache, bcache.table
      ensures Sane() && store[blk] == old(store)[blk]
      ensures !ok ==> Grow(st0, ptr0, bm0, store, ptr', bitmap, {blk as nat}) && FillsRoot(ptr, ptr', SlotOf(n).root)
      ensures ok ==> Change(st0, ptr0, bm0, store, ptr', bitmap, {}) && Placed(st0, ptr0, store, ptr', n, blk)
      ensures ok <==> old(freeBlocks) >= Missing(old(store), ptr, n)
      ensures freeBlocks == if ok then old(freeBlocks) - Missing(old(store), ptr, n) else 0
      ensures !ok ==> Adds(old(store), old(bitmap), store, bitmap, {})
    {
      hide Backed, Tree, In, Free, Owned, Placed;
      MissingSingle(store, ptr, n);
      hide Missing;
      var idx := n - DIRECT;
      ptr' := EnsureRoot(ptr, SINGLE, false, st0, ptr0, bm0, {blk as nat});
      var q := ptr'[SINGLE];
      if q == 0 { return false, ptr'; }
      AtIn(store, ptr', Slot(SINGLE, []));
      WalkOne(store, q, idx);
      ghost var st1 := store;
      SetEntry(q, idx, blk, false);
      GrowLeaf(st0, ptr0, bm0, st1, ptr', bitmap, n, blk, [], idx, q, store);
      ok := true;
    }

    method PlaceDouble(ptr: Roots, n: nat, blk: u32, ghost st0: Store, ghost ptr0: Roots, ghost bm0: Bits)
      returns (ok: bool, ptr': Roots)
      requires Sane() && Grow(st0, ptr0, bm0, store, ptr, bitmap, {blk as nat})
      requires DOUBLE_BASE <= n < TRIPLE_BASE && Lookup(st0, ptr0, n) == 0
      modifies `bitmap, `freeBlocks, `hint, `store, `scratch2, `scratch3, bcache, bcache.cache, bcache.table
      ensures Sane() && store[blk] == old(store)[blk]
      ensures !ok ==> Grow(st0, ptr0, bm0, store, ptr', bitmap, {blk as nat}) && FillsRoot(ptr, ptr', SlotOf(n).root)
      ensures ok ==> Change(st0, ptr0, bm0, store, ptr', bitmap, {}) && Placed(st0, ptr0, store, ptr', n, blk)
      ensures ok <==> old(freeBlocks) >= Missing(old(store), ptr, n)
      ensures freeBlocks == if ok then old(freeBlocks) - Missing(old(store), ptr, n) else 0
      ensures !ok && ptr[DOUBLE] == 0 ==> Adds(old(store), old(bitmap), store, bitmap, {})
    {
      hide Backed, Tree, In, Free, Owned, Placed, FileIn, FileOk, Grow, Missing, Lookup;
      GrowOk(st0, ptr0, bm0, store, ptr, bitmap, {blk as nat}, DOUBLE);
      MissingDouble(store, ptr, n);
      var d := n - DOUBLE_BASE;
      var l1, l2 := d / PTRS, d % PTRS;
      ptr' := EnsureRoot(ptr, DOUBLE, false, st0, ptr0, bm0, {blk as nat});
      if ptr'[DOUBLE] == 0 { return false, ptr'; }
      assert [] + [l1] + [l2] == [l1, l2];
      ok := PlaceBelow(ptr', ptr'[DOUBLE], l1, l2, false, n, blk, [], st0, ptr0, bm0);
    }

    /** The last two steps: the lowest pointer block below `q`, made if it is missing, gets the pointer to `blk`. */
    method PlaceBelow(ptr: Roots, q: nat, i: nat, j: nat, third: bool, ghost n: nat, blk: u32, ghost path: seq<nat>,
                      ghost st0: Store, ghost ptr0: Roots, ghost bm0: Bits) returns (ok: bool)
      requires Sane() && Grow(st0, ptr0, bm0, store, ptr, bitmap, {blk as nat})
      requires DOUBLE_BASE <= n < MAX_LOGICAL && SlotOf(n).path == path + [i] + [j] && i < PTRS && j < PTRS && Lookup(st0, ptr0, n) == 0
      requires 0 < q < |store| && q == At(store, ptr, Slot(SlotOf(n).root, path))
      modifies `bitmap, `freeBlocks, `hint, `store, `scratch2, `scratch3, bcache, bcache.cache, bcache.table
      ensures Sane() && store[blk] == old(store)[blk]
      ensures !ok ==> Grow(st0, ptr0, bm0, store, ptr, bitmap, {blk as nat})
      ensures ok ==> Change(st0, ptr0, bm0, store, ptr, bitmap, {}) && Placed(st0, ptr0, store, ptr, n, blk)
      ensures ok <==> old(store)[q][i] != 0 || old(freeBlocks) > 0
      ensures freeBlocks == if ok && old(store)[q][i] == 0 then old(freeBlocks) - 1 else old(freeBlocks)
      ensures !ok ==> store == old(store) && bitmap == old(bitmap)
    {
      hide Backed, Tree, In, Free, Owned, Placed, FileIn, FileOk, Grow, Lookup, Adds, At;
      PathOf(n, path, i, j);
      ghost var r := SlotOf(n).root;
      var mid := EnsureChild(ptr, q, i, third, r, path, st0, ptr0, bm0, {blk as nat});
      if mid == 0 { return false; }
      GrowMap(st0, ptr0, bm0, store, ptr, bitmap, {blk as nat});
      EmptySlot(st0, ptr0, store, ptr, n, path + [i], j, mid);
      ghost var st1 := store;
      SetEntry(mid, j, blk, third);
      GrowLeaf(st0, ptr0, bm0, st1, ptr, bitmap, n, blk, path + [i], j, mid, store);
      ok := true;
    }

    method PlaceTriple(ptr: Roots, n: nat, blk: u32, ghost st0: Store, ghost ptr0: Roots, ghost bm0: Bits)
      returns (ok: bool, ptr': Roots)
      requires Sane() && Grow(st0, ptr0, bm0, store, ptr, bitmap, {blk as nat})
      requires TRIPLE_BASE <= n < MAX_LOGICAL && Lookup(st0, ptr0, n) == 0
      modifies `bitmap, `freeBlocks, `hint, `store, `scratch2, `scratch3, bcache, bcache.cache, bcache.table
      ensures Sane() && store[blk] == old(store)[blk]
      ensures !ok ==> Grow(st0, ptr0, bm0, store, ptr', bitmap, {blk as nat}) && FillsRoot(ptr, ptr', SlotOf(n).root)
      ensures ok ==> Change(st0, ptr0, bm0, store, ptr', bitmap, {}) && Placed(st0, ptr0, store, ptr', n, blk)
      ensures ok <==> old(freeBlocks) >= Missing(old(store), ptr, n)
      ensures freeBlocks == if ok then old(freeBlocks) - Missing(old(store), ptr, n) else 0
    {
      hide Backed, Tree, In, Free, Owned, Placed, FileIn, FileOk, Grow, Missing, Lookup;
      var d := n - TRIPLE_BASE;
      var l1, rem := d / (PTRS * PTRS), d % (PTRS * PTRS);
      var l2, l3 := rem / PTRS, rem % PTRS;
      GrowOk(st0, ptr0, bm0, store, ptr, bitmap, {blk as nat}, TRIPLE);
      if ptr[TRIPLE] != 0 { GrowEntry(st0, ptr0, bm0, store, ptr, bitmap, {blk as nat}, TRIPLE, l1); }
      MissingTriple(store, ptr, n);
      ptr' := EnsureRoot(ptr, TRIPLE, true, st0, ptr0, bm0, {blk as nat});
      if ptr'[TRIPLE] == 0 { return false, ptr'; }
      var dbl := EnsureChild(ptr', ptr'[TRIPLE], l1, true, TRIPLE, [], st0, ptr0, bm0, {blk as nat});
      if dbl == 0 { return false, ptr'; }
      assert [] + [l1] == [l1] && [l1] + [l2] + [l3] == [l1, l2, l3];
      ok := PlaceBelow(ptr', dbl, l2, l3, true, n, blk, [l1], st0, ptr0, bm0);
    }

    /**
     `alloc_file_block`: gives logical block `n`, which has none, a cleared disk block, together with
     the pointer blocks it needs, exactly when there are enough free blocks for all of them.  On failure
     the data block goes back and the map is as before, but pointer blocks made on the way stay taken.
     */
    method AllocFileBlock(ino: Inode, n: nat) returns (blk: u32, ino': Inode)
      requires Sane() && FileOk(store, ino.ptr) && Owned(store, ino.ptr, bitmap, dataStart)
      requires n < MAX_LOGICAL && Lookup(store, ino.ptr, n) == 0
      modifies `bitmap, `freeBlocks, `hint, `store, `scratch2, `scratch3, bcache, bcache.cache, bcache.table
      ensures Sane() && ino' == ino.(ptr := ino'.ptr, blockCount := ino'.blockCount)
      ensures Change(old(store), ino.ptr, old(bitmap), store, ino'.ptr, bitmap, {})
      ensures blk != 0 <==> old(freeBlocks) >= 1 + Missing(old(store), ino.ptr, n)
      ensures blk == 0 ==> Grow(old(store), ino.ptr, old(bitmap), store, ino'.ptr, bitmap, {}) && FillsRoot(ino.ptr, ino'.ptr, SlotOf(n).root)
      ensures blk == 0 ==> freeBlocks == if old(freeBlocks) == 0 then 0 else 1
      ensures blk == 0 && n < TRIPLE_BASE && ino.ptr[SlotOf(n).root] == 0 ==> Adds(old(store), old(bitmap), store, bitmap, {})
      ensures blk != 0 ==> dataStart <= blk < total && !old(bitmap[blk]) && store[blk] == ZERO_BLOCK
      ensures blk != 0 ==> Placed(old(store), ino.ptr, store, ino'.ptr, n, blk)
    {
      hide Backed, Tree, In, Free, Placed, FileIn, FileOk, Walk, Missing;
      ghost var st0, ptr0, bm0 := store, ino.ptr, bitmap;
      GrowNone(st0, ptr0, bm0, dataStart);
      ino' := ino;
      blk := NewBlock(false);
      if blk == 0 { return; }
      TakeBlock(st0, ptr0, bm0, st0, ptr0, bm0, {}, blk);
      MissingSame(st0, store, ptr0, n);
      assert {} + {blk as nat} == {blk as nat};
      hide Grow, SameMap, Lookup, Owned, SameFile;
      var ok, ptr' := true, ino.ptr;
      if n < DIRECT {
        MissingDirect(st0, ptr0, n);
        DirectSlot(st0, ptr0, n);
        GrowDirect(st0, ptr0, bm0, store, ptr0, bitmap, n, blk);
        ptr' := ptr'[n := blk];
      } else if n < DOUBLE_BASE {
        ok, ptr' := PlaceSingle(ptr', n, blk, st0, ptr0, bm0);
      } else if n < TRIPLE_BASE {
        ok, ptr' := PlaceDouble(ptr', n, blk, st0, ptr0, bm0);
      } else {
        ok, ptr' := PlaceTriple(ptr', n, blk, st0, ptr0, bm0);
      }
      ino' := ino.(ptr := ptr');
      if !ok {
        DropBlock(st0, ptr0, bm0, store, ptr', bitmap, {blk as nat}, blk);
        GrowMarks(st0, ptr0, bm0, store, ptr', bitmap, {blk as nat});
        FreeBlock(blk);
        assert {blk as nat} - {blk as nat} == {};
        GrowMap(st0, ptr0, bm0, store, ptr', bitmap, {});
        return 0, ino';
      }
      ino' := ino'.(blockCount := (ino.blockCount + 1) % 0x1_0000_0000);
    }

    // ----- Shrinking a file -----

    /** The loop over a loaded pointer block: frees and clears the entries from `start` on. */
    method FreeEntries(ghost b: Block, start: nat, third: bool) returns (any: bool)
      requires Sane() && Buf(third) == b && GoodEntries(b, bitmap, dataStart, total)
      modifies `bitmap, `freeBlocks, `scratch2, `scratch3
      ensures Sane() && Buf(third) == Chop(b, start)
      ensures Freed(old(bitmap), bitmap, Entries(b, Cap(start), PTRS))
      ensures any <==> Buf(third) != ZERO_BLOCK
    {
      hide Backed, Free, Entries, Freed, AnyBelow;
      ghost var s := Cap(start);
      assert Freed(bitmap, bitmap, Entries(b, s, s)) by { FreedNone(b, bitmap, s); }
      any := false;
      assert !AnyBelow(b, 0) by { NoneBelow(b); }
      var i := 0;
      while i < PTRS
        invariant i <= PTRS && Sane()
        invariant forall j :: 0 <= j < PTRS ==> Buf(third)[j] == if s <= j < i then 0 else b[j]
        invariant Freed(old(bitmap), bitmap, Entries(b, s, if s < i then i else s))
        invariant any <==> AnyBelow(Buf(third), i)
      {
        AnyStep(Buf(third), i, 0);
        if i >= start { FreedStep(b, old(bitmap), bitmap, s, i, dataStart, total); }
        if i >= start && Buf(third)[i] != 0 {
          FreeBlock(Buf(third)[i]);
          Poke(third, i, 0);
        }
        if Buf(third)[i] != 0 { any := true; }
        i := i + 1;
      }
      assert Buf(third) == Chop(b, start);
      AnyWhole(Buf(third));
    }

    /** Frees the entries of pointer block `p` from `start` on, and `p` itself when nothing is left. */
    method CutLeaves(p: nat, start: nat, third: bool) returns (any: bool)
      requires Sane() && 0 < p < total && Tree(store, p, 1) && Held(store, p, 1, bitmap, dataStart)
      modifies `bitmap, `freeBlocks, `store, `scratch2, `scratch3, bcache, bcache.cache, bcache.table
      ensures Sane() && Cut(old(store), old(bitmap), p, 1, start, store, bitmap, if any then p else 0)
      ensures Lean(store, if any then p else 0, 1, start)
    {
      hide Backed, Tree, Free, Cut, Walk, Off;
      LeafEntries(store, p, bitmap, dataStart);
      Load(third, p);
      any := FreeEntries(store[p], start, third);
      if any {
        CutLeafKeep(store, old(bitmap), p, start, bitmap);
        Save(third, p);
        assert Chop(old(store)[p], start) == store[p];
      } else {
        CutLeafDrop(store, old(bitmap), p, start, bitmap);
        FreeBlock(p);
      }
    }

    /** The double level: cuts every child of `p`, re-reading `p` after each one. */
    method CutDouble(p: nat, s: nat, third: bool) returns (any: bool)
      requires Sane() && 0 < p < |store| && Tree(store, p, 2) && Held(store, p, 2, bitmap, dataStart)
      modifies `bitmap, `freeBlocks, `store, `scratch2, `scratch3, bcache, bcache.cache, bcache.table
      ensures Sane() && Cut(old(store), old(bitmap), p, 2, s, store, bitmap, if any then p else 0)
      ensures Lean(store, if any then p else 0, 2, s)
    {
      hide Backed, Tree, In, Free, Cut, Cutting, Walk, Off, Held, AnyBelow;
      CuttingStart(store, bitmap, p, 2, s, dataStart);
      Load(third, p);
      any := false;
      NoneBelow(store[p]);
      var i := 0;
      while i < PTRS
        invariant i <= PTRS && Sane() && 0 < p < |store| && Buf(third) == store[p]
        invariant Cutting(old(store), old(bitmap), p, 2, i, s, store, bitmap, dataStart)
        invariant any <==> AnyBelow(store[p], i)
      {
        any := CutDoubleChild(p, i, s, third, any, old(store), old(bitmap));
        i := i + 1;
      }
      CuttingEnd(old(store), old(bitmap), p, 2, s, store, bitmap, dataStart, any);
      if !any { FreeBlock(p); }
    }

    method CutDoubleChild(p: nat, i: nat, s: nat, third: bool, any: bool, ghost st0: Store, ghost bm0: Bits) returns (any': bool)
      requires i < PTRS && Sane() && 0 < p < |store| && Buf(third) == store[p]
      requires Cutting(st0, bm0, p, 2, i, s, store, bitmap, dataStart)
      requires any <==> AnyBelow(store[p], i)
      modifies `bitmap, `freeBlocks, `store, `scratch2, `scratch3, bcache, bcache.cache, bcache.table
      ensures Sane() && 0 < p < |store| && Buf(third) == store[p]
      ensures Cutting(st0, bm0, p, 2, i + 1, s, store, bitmap, dataStart)
      ensures any' <==> AnyBelow(store[p], i + 1)
    {
      hide Backed, Tree, In, Free, Cut, Cutting, Walk, Off, Held, Lean, AnyBelow;
      any' := any;
      assert Span(1) == PTRS;
      var mid := Buf(third)[i];
      AnyStep(store[p], i, 0);
      if mid == 0 {
        CuttingSkip(st0, bm0, p, 2, i, s, store, bitmap, dataStart);
        return;
      }
      var midStart := Rest(s, i * PTRS);
      if midStart < PTRS {
        CuttingChild(st0, bm0, p, 2, i, s, store, bitmap, dataStart);
        ghost var st, bm := store, bitmap;
        var anyMid := CutLeaves(mid, midStart, third);
        ghost var c' := if anyMid then mid else 0;
        ghost var st1 := store;
        CuttingStep(st0, bm0, p, 2, i, s, st, bm, dataStart, st1, bitmap, c', st1[p := st1[p][i := c']]);
        Load(third, p);
        if !anyMid {
          Poke(third, i, 0);
          Save(third, p);
        } else {
          any' := true;
        }
      } else {
        CuttingSkip(st0, bm0, p, 2, i, s, store, bitmap, dataStart);
        any' := true;
      }
    }

    /** The triple level: cuts every double-level child of `p`, re-reading `p` after each one. */
    method CutTriple(p: nat, s: nat) returns (any: bool)
      requires Sane() && 0 < p < |store| && Tree(store, p, 3) && Held(store, p, 3, bitmap, dataStart)
      modifies `bitmap, `freeBlocks, `store, `scratch2, `scratch3, bcache, bcache.cache, bcache.table
      ensures Sane() && Cut(old(store), old(bitmap), p, 3, s, store, bitmap, if any then p else 0)
      ensures Lean(store, if any then p else 0, 3, s)
    {
      hide Backed, Tree, In, Free, Cut, Cutting, Walk, Off, Held, AnyBelow;
      CuttingStart(store, bitmap, p, 3, s, dataStart);
      Load(true, p);
      any := false;
      NoneBelow(store[p]);
      var i := 0;
      while i < PTRS
        invariant i <= PTRS && Sane() && 0 < p < |store| && scratch3 == store[p]
        invariant Cutting(old(store), old(bitmap), p, 3, i, s, store, bitmap, dataStart)
        invariant any <==> AnyBelow(store[p], i)
      {
        any := CutTripleChild(p, i, s, any, old(store), old(bitmap));
        i := i + 1;
      }
      CuttingEnd(old(store), old(bitmap), p, 3, s, store, bitmap, dataStart, any);
      if !any { FreeBlock(p); }
    }

    method CutTripleChild(p: nat, i: nat, s: nat, any: bool, ghost st0: Store, ghost bm0: Bits) returns (any': bool)
      requires i < PTRS && Sane() && 0 < p < |store| && scratch3 == store[p]
      requires Cutting(st0, bm0, p, 3, i, s, store, bitmap, dataStart)
      requires any <==> AnyBelow(store[p], i)
      modifies `bitmap, `freeBlocks, `store, `scratch2, `scratch3, bcache, bcache.cache, bcache.table
      ensures Sane() && 0 < p < |store| && scratch3 == store[p]
      ensures Cutting(st0, bm0, p, 3, i + 1, s, store, bitmap, dataStart)
      ensures any' <==> AnyBelow(store[p], i + 1)
    {
      hide Backed, Tree, In, Free, Cut, Cutting, Walk, Off, Held, Lean, AnyBelow;
      any' := any;
      assert Span(1) == PTRS && Span(2) == PTRS * PTRS;
      var dbl := scratch3[i];
      AnyStep(store[p], i, 0);
      if dbl == 0 {
        CuttingSkip(st0, bm0, p, 3, i, s, store, bitmap, dataStart);
        return;
      }
      CuttingChild(st0, bm0, p, 3, i, s, store, bitmap, dataStart);
      ghost var st, bm := store, bitmap;
      var anyDbl := CutDouble(dbl, Rest(s, i * (PTRS * PTRS)), true);
      ghost var c' := if anyDbl then dbl else 0;
      ghost var st1 := store;
      CuttingStep(st0, bm0, p, 3, i, s, st, bm, dataStart, st1, bitmap, c', st1[p := st1[p][i := c']]);
      Load(true, p);
      if !anyDbl {
        Poke(true, i, 0);
        Save(true, p);
      } else {
        any' := true;
      }
    }

    /** The part of `limnfs_truncate` that gives blocks back: keeps the first `nb` logical blocks. */
    method ShrinkFile(ptr0: Roots, nb: nat) returns (ptr: Roots)
      requires Sane() && FileOk(store, ptr0) && Owned(store, ptr0, bitmap, dataStart)
      modifies `bitmap, `freeBlocks, `store, `scratch2, `scratch3, bcache, bcache.cache, bcache.table
      ensures Sane() && Change(old(store), ptr0, old(bitmap), store, ptr, bitmap, {})
      ensures MapCutAt(old(store), ptr0, nb, store, ptr) && LeanFile(store, ptr, nb)
    {
      hide Backed, Tree, In, Free, Cut, Walk, Off, Held, FileOk, FileIn, SlotOf, Lean, Owned;
      ghost var st0, bm0 := store, bitmap;
      ShrinkStart(st0, ptr0, bm0, nb, dataStart);
      hide Shrinking;
      ptr := ptr0;
      var i := nb;
      while i < DIRECT
        invariant Sane() && nb <= i && (nb <= DIRECT ==> i <= DIRECT) && store == st0
        invariant Shrinking(st0, ptr0, bm0, nb, if i < DIRECT then i else DIRECT, store, ptr, bitmap, dataStart)
      {
        if ptr[i] != 0 {
          ShrinkingRoot(st0, ptr0, bm0, nb, i, store, ptr, bitmap, dataStart);
          CutDirect(store, bitmap, ptr[i]);
          ghost var bm := bitmap;
          FreeBlock(ptr[i]);
          LeanLeaf(store, 0, 0);
          ShrinkStep(st0, ptr0, bm0, nb, i, store, ptr, bm, dataStart, store, 0, bitmap);
          ptr := ptr[i := 0];
        } else {
          ShrinkSkip(st0, ptr0, bm0, nb, i, store, ptr, bitmap, dataStart);
        }
        i := i + 1;
      }
      ptr := ShrinkRoot(SINGLE, nb, ptr, st0, ptr0, bm0);
      ptr := ShrinkRoot(DOUBLE, nb, ptr, st0, ptr0, bm0);
      ptr := ShrinkRoot(TRIPLE, nb, ptr, st0, ptr0, bm0);
      ShrinkEnd(st0, ptr0, bm0, nb, store, ptr, bitmap, dataStart);
    }

    /** One of the three indirect trees. */
    method ShrinkRoot(r: nat, nb: nat, ptr: Roots, ghost st0: Store, ghost ptr0: Roots, ghost bm0: Bits) returns (ptr': Roots)
      requires SINGLE <= r <= TRIPLE && Sane() && Shrinking(st0, ptr0, bm0, nb, r, store, ptr, bitmap, dataStart)
      modifies `bitmap, `freeBlocks, `store, `scratch2, `scratch3, bcache, bcache.cache, bcache.table
      ensures Sane() && Shrinking(st0, ptr0, bm0, nb, r + 1, store, ptr', bitmap, dataStart)
    {
      hide Backed, Tree, In, Free, Cut, Walk, Off, Held, FileOk, FileIn, SlotOf, Lean, Owned, Shrinking;
      if ptr[r] == 0 {
        ShrinkSkip(st0, ptr0, bm0, nb, r, store, ptr, bitmap, dataStart);
        return ptr;
      }
      ShrinkingRoot(st0, ptr0, bm0, nb, r, store, ptr, bitmap, dataStart);
      ghost var st, bm := store, bitmap;
      var any;
      if r == SINGLE {
        any := CutLeaves(ptr[r], Rest(nb, DIRECT), false);
      } else if r == DOUBLE {
        any := CutDouble(ptr[r], Rest(nb, DOUBLE_BASE), false);
      } else {
        any := CutTriple(ptr[r], Rest(nb, TRIPLE_BASE));
      }
      var q := if any then ptr[r] else 0;
      ShrinkStep(st0, ptr0, bm0, nb, r, st, ptr, bm, dataStart, store, q, bitmap);
      return ptr[r := q];
    }

    // ----- Freeing a file -----

    /** Frees pointer block `p` of level 1 and all its entries. */
    method FreeLeaves(p: nat, third: bool)
      requires Sane() && 0 < p < |store| && Tree(store, p, 1) && Held(store, p, 1, bitmap, dataStart)
      modifies `bitmap, `freeBlocks, `scratch2, `scratch3, bcache, bcache.cache, bcache.table
      ensures Sane() && TreeFreed(store, p, 1, old(bitmap), bitmap)
    {
      hide Backed, Tree, Free, TreeFreed, ChildrenFreed, Held;
      NoChildFreed(store, p, 1, bitmap);
      Load(third, p);
      var i := 0;
      while i < PTRS
        invariant i <= PTRS && Sane() && Buf(third) == store[p]
        invariant ChildrenFreed(store, p, 1, i, old(bitmap), bitmap)
      {
        ghost var bm := bitmap;
        NextChildHeld(store, p, 1, i, old(bitmap), bitmap, dataStart);
        if Buf(third)[i] != 0 {
          HeldSelf(store, store[p][i], 0, bitmap, dataStart);
          LeafFreed(store, bitmap, store[p][i]);
          FreeBlock(Buf(third)[i]);
        } else {
          NoTreeFreed(store, 0, bitmap);
        }
        ChildFreed(store, p, 1, i, old(bitmap), bm, bitmap);
        i := i + 1;
      }
      WholeTreeFreed(store, p, 1, old(bitmap), bitmap, dataStart);
      FreeBlock(p);
    }

    /** Frees a double-level tree; the child overwrites the buffer, so `p` is read again after each one. */
    method FreeDouble(p: nat, third: bool)
      requires Sane() && 0 < p < |store| && Tree(store, p, 2) && Held(store, p, 2, bitmap, dataStart)
      modifies `bitmap, `freeBlocks, `scratch2, `scratch3, bcache, bcache.cache, bcache.table
      ensures Sane() && TreeFreed(store, p, 2, old(bitmap), bitmap)
    {
      hide Backed, Tree, Free, TreeFreed, ChildrenFreed, Held;
      NoChildFreed(store, p, 2, bitmap);
      Load(third, p);
      var i := 0;
      while i < PTRS
        invariant i <= PTRS && Sane() && Buf(third) == store[p]
        invariant ChildrenFreed(store, p, 2, i, old(bitmap), bitmap)
      {
        ghost var bm := bitmap;
        if Buf(third)[i] != 0 {
          NextChildHeld(store, p, 2, i, old(bitmap), bitmap, dataStart);
          FreeLeaves(Buf(third)[i], third);
          Load(third, p);
        } else {
          NoTreeFreed(store, 1, bitmap);
        }
        ChildFreed(store, p, 2, i, old(bitmap), bm, bitmap);
        i := i + 1;
      }
      WholeTreeFreed(store, p, 2, old(bitmap), bitmap, dataStart);
      FreeBlock(p);
    }

    method FreeTriple(p: nat)
      requires Sane() && 0 < p < |store| && Tree(store, p, 3) && Held(store, p, 3, bitmap, dataStart)
      modifies `bitmap, `freeBlocks, `scratch2, `scratch3, bcache, bcache.cache, bcache.table
      ensures Sane() && TreeFreed(store, p, 3, old(bitmap), bitmap)
    {
      hide Backed, Tree, Free, TreeFreed, ChildrenFreed, Held;
      NoChildFreed(store, p, 3, bitmap);
      Load(true, p);
      var i := 0;
      while i < PTRS
        invariant i <= PTRS && Sane() && scratch3 == store[p]
        invariant ChildrenFreed(store, p, 3, i, old(bitmap), bitmap)
      {
        ghost var bm := bitmap;
        if scratch3[i] != 0 {
          NextChildHeld(store, p, 3, i, old(bitmap), bitmap, dataStart);
          FreeDouble(scratch3[i], true);
          Load(true, p);
        } else {
          NoTreeFreed(store, 2, bitmap);
        }
        ChildFreed(store, p, 3, i, old(bitmap), bm, bitmap);
        i := i + 1;
      }
      WholeTreeFreed(store, p, 3, old(bitmap), bitmap, dataStart);
      FreeBlock(p);
    }

    /** The block-freeing part of `limnfs_free_inode`. */
    method FreeFile(ptr: Roots)
      requires Sane() && FileOk(store, ptr) && Owned(store, ptr, bitmap, dataStart)
      modifies `bitmap, `freeBlocks, `scratch2, `scratch3, bcache, bcache.cache, bcache.table
      ensures Sane() && Change(old(store), ptr, old(bitmap), store, NoRoots(), bitmap, {})
    {
      hide Backed, Tree, In, Free, TreeFreed, RootsFreed, Held, FileOk, Owned;
      NoRootFreed(store, ptr, bitmap);
      var i := 0;
      while i < DIRECT
        invariant i <= DIRECT && Sane() && RootsFreed(store, ptr, i, old(bitmap), bitmap)
      {
        ghost var bm := bitmap;
        NextRootHeld(store, ptr, i, old(bitmap), bitmap, dataStart);
        if ptr[i] != 0 {
          HeldSelf(store, ptr[i], 0, bitmap, dataStart);
          LeafFreed(store, bitmap, ptr[i]);
          FreeBlock(ptr[i]);
        } else {
          NoTreeFreed(store, 0, bitmap);
        }
        RootFreed(store, ptr, i, old(bitmap), bm, bitmap);
        i := i + 1;
      }
      FreeRoot(SINGLE, ptr, old(bitmap));
      FreeRoot(DOUBLE, ptr, old(bitmap));
      FreeRoot(TRIPLE, ptr, old(bitmap));
      FileFreed(store, ptr, old(bitmap), bitmap, dataStart);
    }

    method FreeRoot(r: nat, ptr: Roots, ghost bm0: Bits)
      requires SINGLE <= r <= TRIPLE && Sane() && FileOk(store, ptr) && Owned(store, ptr, bm0, dataStart)
      requires RootsFreed(store, ptr, r, bm0, bitmap)
      modifies `bitmap, `freeBlocks, `scratch2, `scratch3, bcache, bcache.cache, bcache.table
      ensures Sane() && RootsFreed(store, ptr, r + 1, bm0, bitmap)
    {
      hide Backed, Tree, In, Free, TreeFreed, RootsFreed, Held, FileOk, Owned;
      NextRootHeld(store, ptr, r, bm0, bitmap, dataStart);
      ghost var bm := bitmap;
      if ptr[r] != 0 {
        if r == SINGLE {
          FreeLeaves(ptr[r], false);
        } else if r == DOUBLE {
          FreeDouble(ptr[r], false);
        } else {
          FreeTriple(ptr[r]);
        }
      } else {
        NoTreeFreed(store, Level(r), bitmap);
      }
      RootFreed(store, ptr, r, bm0, bm, bitmap);
    }

    // ----- Inodes -----

    method ReadInode(ino: nat) returns (ok: bool, n: Inode)
      requires Sane()
      modifies `scratch, bcache, bcache.cache, bcache.table
      ensures Sane() && (ok <==> ino < MAX_INODES) && (ok ==> n == InodeAt(store, tblStart, ino))
      ensures Settles(old(bcache.disk), bcache.disk, store)
    {
      hide Backed, Free;
      if ino >= MAX_INODES { return false, EmptyInode(); }
      var s := WORDS * (ino % PER_BLOCK);
      scratch := Fetch(tblStart + ino / PER_BLOCK);
      return true, Decode(scratch[s..s + WORDS]);
    }

    method WriteInode(ino: nat, n: Inode) returns (ok: bool)
      requires Backed() && tblStart + 30 <= |store|
      modifies `scratch, `store, bcache, bcache.cache, bcache.table
      ensures Backed() && (old(Sane()) ==> Sane()) && (ok <==> ino < MAX_INODES) && (!ok ==> store == old(store))
      ensures ok ==> var b := tblStart + ino / PER_BLOCK;
                     store == old(store)[b := PutInode(old(store)[b], ino % PER_BLOCK, n)]
    {
      if ino >= MAX_INODES { return false; }
      var b := tblStart + ino / PER_BLOCK;
      hide Backed, Free, PutInode;
      scratch := Fetch(b);
      scratch := PutInode(scratch, ino % PER_BLOCK, n);
      Put(b, scratch);
      return true;
    }

    /** `limnfs_truncate`. */
    method Truncate(ino: nat, newSize: u32) returns (ok: bool)
      requires Valid()
      modifies `bitmap, `freeBlocks, `hint, `store, `scratch, `scratch2, `scratch3, bcache, bcache.cache, bcache.table
      ensures Valid() && (ok <==> ino < MAX_INODES)
      ensures !ok ==> store == old(store) && bitmap == old(bitmap)
      ensures ok ==> OnlyFile(old(store), old(bitmap), store, bitmap, tblStart, dataStart, ino, InodeAt(store, tblStart, ino))
      ensures ok ==> Truncated(old(store), InodeAt(old(store), tblStart, ino), newSize, store, InodeAt(store, tblStart, ino))
      ensures ok ==> InodeAt(store, tblStart, ino).kind == InodeAt(old(store), tblStart, ino).kind
      ensures ok && newSize >= InodeAt(old(store), tblStart, ino).size ==> bitmap == old(bitmap) && freeBlocks == old(freeBlocks)
      ensures inodeBitmap == old(inodeBitmap) && (ok && inodeBitmap[ino] && old(Tidy()) ==> Tidy())
    {
      hide Backed, Tree, In, FileIn, FileOk, FsOk, Owned, FsInv, InodeAt, PutInode, Leaked, Untouched, Free, Lookup, Change;
      var n;
      ok, n := ReadInode(ino);
      if !ok { return; }
      TableFile(store, bitmap, tblStart, dataStart, ino);
      ghost var st0, bm0, n0 := store, bitmap, n;
      if newSize >= n.size {
        n := n.(size := newSize);
        GrowNone(store, n.ptr, bitmap, dataStart);
      } else {
        var nb := (newSize + BLOCK_SIZE - 1) % 0x1_0000_0000 / BLOCK_SIZE;
        if newSize == 0 { nb := 0; }
        var ptr := ShrinkFile(n.ptr, nb);
        var meta := (if ptr[SINGLE] != 0 then 1 else 0) + (if ptr[DOUBLE] != 0 then 1 else 0) + (if ptr[TRIPLE] != 0 then 1 else 0);
        n := n.(ptr := ptr, size := newSize, blockCount := nb + meta);
      }
      ghost var st1 := store;
      ChangeOk(st0, n0.ptr, bm0, st1, n.ptr, bitmap);
      assert Truncated(st0, n0, newSize, st1, n);
      hide Truncated;
      ok := WriteInode(ino, n);
      FinishOp(st0, bm0, tblStart, dataStart, ino, st1, n, bitmap, store);
      TableEntry(st0, bm0, store, bitmap, tblStart, dataStart, ino, n);
      TruncatedFrame(st0, n0, newSize, st1, n, store);
      if inodeBitmap[ino] && old(Tidy()) {
        TidyOnly(st0, bm0, store, bitmap, tblStart, dataStart, ino, n, inodeBitmap, inodeBitmap);
      }
    }

    /** `limnfs_free_inode`: frees the whole tree of the inode, clears the inode and its bit. */
    /** What the free-inode count reports beyond the clear bits of the inode bitmap. */
    ghost function Miscount(): int
      reads `freeInodes, `inodeBitmap
    {
      freeInodes - |ClearBits(inodeBitmap)|
    }

    method FreeInode(ino: nat)
      requires Valid()
      modifies `bitmap, `freeBlocks, `hint, `store, `scratch, `scratch2, `scratch3, `inodeBitmap, `freeInodes, bcache, bcache.cache, bcache.table
      ensures Valid() && |store| == |old(store)|
      ensures ino == 0 || ino >= MAX_INODES ==> store == old(store) && bitmap == old(bitmap) && inodeBitmap == old(inodeBitmap)
      ensures 0 < ino < MAX_INODES ==>
                inodeBitmap == old(inodeBitmap)[ino := false] && FileGone(old(store), old(bitmap), store, bitmap, tblStart, dataStart, ino)
      ensures Miscount() == old(Miscount()) + if 0 < ino < MAX_INODES && !old(inodeBitmap)[ino] then 1 else 0
    {
      hide Backed, Tree, In, FileIn, FileOk, FsOk, Owned, FsInv, InodeAt, PutInode, Leaked, Untouched, Free, Lookup, Change, OnlyFile, Settles;
      if ino == 0 || ino >= MAX_INODES { return; }
      var ok, n := ReadInode(ino);
      TableFile(store, bitmap, tblStart, dataStart, ino);
      ghost var st0, bm0 := store, bitmap;
      FreeFile(n.ptr);
      FreedExactly(st0, n.ptr, bm0, bitmap);
      ok := WriteInode(ino, EmptyInode());
      FinishOp(st0, bm0, tblStart, dataStart, ino, st0, EmptyInode(), bitmap, store);
      BitCleared(inodeBitmap, ino);
      inodeBitmap := inodeBitmap[ino := false];
      freeInodes := freeInodes + 1;
    }

    /** `limnfs_alloc_inode`: the first inode from 1 on whose bit is clear. */
    method AllocInode() returns (ino: int)
      requires Valid()
      modifies `inodeBitmap, `freeInodes
      ensures Valid() && (ino == -1 || 0 < ino < MAX_INODES)
      ensures ino == if NextIno(old(inodeBitmap)) < MAX_INODES then NextIno(old(inodeBitmap)) else -1
      ensures inodeBitmap == if ino == -1 then old(inodeBitmap) else old(inodeBitmap)[ino := true]
      ensures Miscount() == old(Miscount())
    {
      hide Backed, DiskOk, Free;
      var i := 1;
      while i < MAX_INODES
        invariant 1 <= i <= MAX_INODES && Valid() && inodeBitmap == old(inodeBitmap) && freeInodes == old(freeInodes)
        invariant NextIno(inodeBitmap) == FirstClear(inodeBitmap, i, MAX_INODES)
      {
        if !inodeBitmap[i] {
          BitTaken(inodeBitmap, i);
          inodeBitmap := inodeBitmap[i := true];
          freeInodes := freeInodes - 1;
          return i;
        }
        i := i + 1;
      }
      return -1;
    }

    // ----- File data -----

    /** Copies `data` into the scratch block at byte `bo`. */
    method CopyIn(bo: nat, data: seq<byte>)
      requires bo + |data| <= BLOCK_SIZE
      modifies `scratch
      ensures Spliced(old(scratch), scratch, bo, data) && (old(Sane()) ==> Sane())
    {
      hide Backed, ByteAt, SetByte;
      var i := 0;
      while i < |data|
        invariant i <= |data| && (old(Sane()) ==> Sane()) && Spliced(old(scratch), scratch, bo, data[..i])
      {
        ghost var b := scratch;
        scratch := SetByte(scratch, bo + i, data[i]);
        forall k | 0 <= k < BLOCK_SIZE ensures ByteAt(scratch, k) == if k == bo + i then data[i] else ByteAt(b, k) {
          SetByteOne(b, bo + i, data[i], k);
        }
        i := i + 1;
      }
      assert data[..|data|] == data;
    }

    /** `limnfs_write_data`. */
    method WriteData(ino: nat, off: nat, buf: seq<byte>) returns (written: int)
      requires Valid() && off + |buf| <= MAX_POS
      modifies `bitmap, `freeBlocks, `hint, `store, `scratch, `scratch2, `scratch3, bcache, bcache.cache, bcache.table
      ensures Valid()
      ensures written == -1 <==> ino >= MAX_INODES
      ensures written == -1 ==> store == old(store) && bitmap == old(bitmap)
      ensures written != -1 ==> 0 <= written <= |buf| && (written < |buf| ==> freeBlocks <= 1)
      ensures written != -1 ==> OnlyFile(old(store), old(bitmap), store, bitmap, tblStart, dataStart, ino, InodeAt(store, tblStart, ino))
      ensures written != -1 ==>
                var n0, n := InodeAt(old(store), tblStart, ino), InodeAt(store, tblStart, ino);
                && Wrote(old(store), n0.ptr, store, n.ptr, off, buf, written) && n == n0.(size := n.size, ptr := n.ptr, blockCount := n.blockCount)
                && n.size == (if off + written > n0.size then (off + written) % 0x1_0000_0000 else n0.size)
      ensures inodeBitmap == old(inodeBitmap) && (written != -1 && inodeBitmap[ino] && old(Tidy()) ==> Tidy())
    {
      hide Backed, Tree, In, FileIn, FileOk, FsOk, Owned, FsInv, InodeAt, PutInode, Leaked, Untouched, Free, Lookup, Change, Wrote;
      var ok, n := ReadInode(ino);
      if !ok { return -1; }
      TableFile(store, bitmap, tblStart, dataStart, ino);
      ghost var st0, bm0, n0 := store, bitmap, n;
      GrowNone(store, n.ptr, bitmap, dataStart);
      WroteNothing(store, n.ptr, off, buf);
      var w := 0;
      var full := false;
      while w < |buf| && !full
        invariant 0 <= w <= |buf| && Sane() && n == n0.(ptr := n.ptr, blockCount := n.blockCount)
        invariant w == 0 || w == |buf| || (off + w) % BLOCK_SIZE == 0
        invariant Change(st0, n0.ptr, bm0, store, n.ptr, bitmap, {})
        invariant Wrote(st0, n0.ptr, store, n.ptr, off, buf, w) && (full ==> freeBlocks <= 1)
        decreases |buf| - w, !full
        modifies `bitmap, `freeBlocks, `hint, `store, `scratch, `scratch2, `scratch3, bcache, bcache.cache, bcache.table
      {
        n, w, full := WriteRound(n, off, buf, w, st0, n0.ptr, bm0);
      }
      if off + w > n.size { n := n.(size := (off + w) % 0x1_0000_0000); }
      ghost var st1 := store;
      ChangeOk(st0, n0.ptr, bm0, st1, n.ptr, bitmap);
      ok := WriteInode(ino, n);
      FinishOp(st0, bm0, tblStart, dataStart, ino, st1, n, bitmap, store);
      TableEntry(st0, bm0, store, bitmap, tblStart, dataStart, ino, n);
      WroteFrame(st0, n0.ptr, st1, n.ptr, off, buf, w, store);
      if inodeBitmap[ino] && old(Tidy()) {
        TidyOnly(st0, bm0, store, bitmap, tblStart, dataStart, ino, n, inodeBitmap, inodeBitmap);
      }
      written := w;
    }

    /** One round of the write loop: at most one block; `full` when no block could be allocated. */
    method WriteRound(n0: Inode, off: nat, buf: seq<byte>, w0: nat, ghost st0: Store, ghost ptr0: Roots, ghost bm0: Bits)
      returns (n: Inode, w: nat, full: bool)
      requires Sane() && w0 < |buf| && off + |buf| <= MAX_POS && (w0 == 0 || (off + w0) % BLOCK_SIZE == 0)
      requires Change(st0, ptr0, bm0, store, n0.ptr, bitmap, {}) && Wrote(st0, ptr0, store, n0.ptr, off, buf, w0)
      requires Owned(st0, ptr0, bm0, dataStart) && Reserved(bm0, dataStart)
      modifies `bitmap, `freeBlocks, `hint, `store, `scratch, `scratch2, `scratch3, bcache, bcache.cache, bcache.table
      ensures Sane()
      ensures n == n0.(ptr := n.ptr, blockCount := n.blockCount) && w <= |buf|
      ensures Change(st0, ptr0, bm0, store, n.ptr, bitmap, {}) && Wrote(st0, ptr0, store, n.ptr, off, buf, w)
      ensures if full then w == w0 && freeBlocks <= 1 else w > w0 && (w == |buf| || (off + w) % BLOCK_SIZE == 0)
    {
      hide Backed, Tree, In, FileIn, FileOk, FsOk, Free, Lookup, Change, Wrote, Spliced, ByteAt;
      hide Grow, Missing, Adds, Settles, SlotOf, Placed, SameMap, Mapped, Owned, Reserved, FillsRoot;
      n, w, full := n0, w0, false;
      var lb, bo := (off + w) / BLOCK_SIZE, (off + w) % BLOCK_SIZE;
      ghost var st := store;
      var d;
      d, n := EnsureBlock(n0, lb, st0, ptr0, bm0);
      if d == 0 {
        WroteSame(st0, ptr0, st, n0.ptr, off, buf, w, store, n.ptr);
        full := true;
        return;
      }
      scratch := Fetch(d);
      var chunk := BLOCK_SIZE - bo;
      if chunk > |buf| - w { chunk := |buf| - w; }
      CopyIn(bo, buf[w..w + chunk]);
      ChangeOk(st0, ptr0, bm0, store, n.ptr, bitmap);
      WroteStep(st0, ptr0, st, n0.ptr, off, buf, w, chunk, store, n.ptr, scratch);
      DataChange(st0, ptr0, bm0, store, n.ptr, bitmap, lb, scratch);
      Put(d, scratch);
      w := w + chunk;
    }

    /** The disk block of logical block `lb`, allocated if it has none; 0 when that fails. */
    method EnsureBlock(n0: Inode, lb: nat, ghost st0: Store, ghost ptr0: Roots, ghost bm0: Bits) returns (d: nat, n: Inode)
      requires Sane() && lb < MAX_LOGICAL && Change(st0, ptr0, bm0, store, n0.ptr, bitmap, {})
      requires Owned(st0, ptr0, bm0, dataStart) && Reserved(bm0, dataStart)
      modifies `bitmap, `freeBlocks, `hint, `store, `scratch2, `scratch3, bcache, bcache.cache, bcache.table
      ensures Sane() && n == n0.(ptr := n.ptr, blockCount := n.blockCount) && |store| == |old(store)|
      ensures Change(st0, ptr0, bm0, store, n.ptr, bitmap, {})
      ensures d == 0 ==> freeBlocks <= 1 && SameMap(old(store), n0.ptr, store, n.ptr)
      ensures d != 0 ==> 0 < d < |store| && d == Lookup(store, n.ptr, lb) && Mapped(old(store), n0.ptr, store, n.ptr, lb)
    {
      hide Backed, Tree, In, FileIn, FileOk, FsOk, Free, Lookup, Change;
      hide Grow, Missing, Adds, Settles, SlotOf, Placed, SameMap, Mapped, Owned, Reserved, FillsRoot;
      n := n0;
      ghost var st, bm := store, bitmap;
      ChangeOk(st0, ptr0, bm0, store, n.ptr, bitmap);
      d := GetFileBlock(n.ptr, lb);
      if d != 0 {
        LookupData(store, n.ptr, lb);
        MappedOld(store, n.ptr, lb);
        return;
      }
      ChangeOwned(st0, ptr0, bm0, store, n.ptr, bitmap, dataStart);
      d, n := AllocFileBlock(n, lb);
      ChangeTrans(st0, ptr0, bm0, st, n0.ptr, bm, store, n.ptr, bitmap);
      ChangeOk(st0, ptr0, bm0, store, n.ptr, bitmap);
      if d == 0 {
        GrowMap(st, n0.ptr, bm, store, n.ptr, bitmap, {});
      } else {
        MappedNew(st, n0.ptr, store, n.ptr, lb, d);
        PlacedAt(st, n0.ptr, store, n.ptr, lb, d);
      }
    }

    /** Copies `count` bytes of the scratch block from byte `bo` on. */
    method CopyOut(bo: nat, count: nat) returns (data: seq<byte>)
      requires bo + count <= BLOCK_SIZE
      ensures |data| == count && forall i :: 0 <= i < count ==> data[i] == ByteAt(scratch, bo + i)
    {
      hide Backed, ByteAt;
      data := [];
      while |data| < count
        invariant |data| <= count && forall i :: 0 <= i < |data| ==> data[i] == ByteAt(scratch, bo + i)
      {
        data := data + [ByteAt(scratch, bo + |data|)];
      }
    }

    /** `bcache_read` of part of a block: fails beyond the end of the disk. */
    method CachedPart(b: nat, bo: nat, count: nat) returns (ok: bool, data: seq<byte>)
      requires Sane() && bo + count <= BLOCK_SIZE
      modifies `scratch, bcache, bcache.cache, bcache.table
      ensures Sane() && (ok <==> b < |store|) && Settles(old(bcache.disk), bcache.disk, store)
      ensures ok ==> |data| == count && forall j :: 0 <= j < count ==> data[j] == ByteAt(store[b], bo + j)
    {
      hide Backed, Free, ByteAt;
      if b >= |bcache.disk| { return false, []; }
      scratch := Fetch(b);
      data := CopyOut(bo, count);
      ok := true;
    }

    /** The four spot checks of the sequential path. */
    method SpotChecks(ptr: Roots, a: nat, n: nat) returns (ok: bool, first: nat)
      requires Sane() && FileOk(store, ptr) && n > 0 && a + n <= MAX_LOGICAL
      modifies `scratch2, `scratch3, bcache, bcache.cache, bcache.table
      ensures Sane() && Settles(old(bcache.disk), bcache.disk, store)
      ensures ok <==> SpotOk(store, ptr, a, n)
      ensures first == Lookup(store, ptr, a)
    {
      hide Backed, Free, FileOk, Lookup, Settles;
      first := GetFileBlock(ptr, a);
      if first == 0 { return false, first; }
      var checks := [1, n / 4, n / 2, n - 1];
      var c := 0;
      while c < 4
        invariant 0 <= c <= 4 && Sane() && Settles(old(bcache.disk), bcache.disk, store)
        invariant forall j :: 0 <= j < c ==> SpotAt(store, ptr, a, n, checks[j])
      {
        if checks[c] != 0 && checks[c] < n {
          ghost var disk := bcache.disk;
          var blk := GetFileBlock(ptr, a + checks[c]);
          SettlesTrans(old(bcache.disk), disk, bcache.disk, store);
          if blk != first + checks[c] {
            assert !SpotAt(store, ptr, a, n, checks[c]);
            return false, first;
          }
        }
        c := c + 1;
      }
      assert SpotAt(store, ptr, a, n, checks[0]) && SpotAt(store, ptr, a, n, checks[1]);
      assert SpotAt(store, ptr, a, n, checks[2]) && SpotAt(store, ptr, a, n, checks[3]);
      ok := true;
    }

    /** What the sequential path has handed over after `got` bytes. */
    ghost predicate Sofar(ptr: Roots, d0: Store, off: nat, used: map<nat, Block>, out: seq<byte>)
      reads `store, bcache
    {
      Sourced(store, ptr, d0, bcache.disk, off, true, Wholes(off, |out|), used, |out|) && Shows(used, off, out)
    }

    /** The whole blocks of the sequential path, up to 64 per device request. */
    method BulkBlocks(ghost ptr: Roots, first: nat, off: nat, len: nat, fb0: nat, out0: seq<byte>, ghost used0: map<nat, Block>, ghost d0: Store)
      returns (fb: nat, out: seq<byte>, ghost used: map<nat, Block>)
      requires Sane() && 0 < len && |out0| <= len && off + len <= MAX_POS && 0 < first == Lookup(store, ptr, off / BLOCK_SIZE)
      requires first + ((off + len - 1) / BLOCK_SIZE - off / BLOCK_SIZE + 1) <= |store|
      requires |out0| == len || AtBlock(first, off, |out0|, fb0)
      requires Settles(d0, bcache.disk, store) && Sofar(ptr, d0, off, used0, out0)
      ensures |out| <= len < |out| + BLOCK_SIZE && (|out| == len || AtBlock(first, off, |out|, fb))
      ensures Sofar(ptr, d0, off, used, out)
    {
      hide Backed, Free, ByteAt, AtBlock, Settles, Sourced, Shows, Lookup, Wholes, DeviceRead, DeviceBlocks, Follows;
      fb, out, used := fb0, out0, used0;
      while |out| + BLOCK_SIZE <= len
        invariant |out| <= len && (|out| == len || AtBlock(first, off, |out|, fb))
        invariant Sofar(ptr, d0, off, used, out)
      {
        var remain := (len - |out|) / BLOCK_SIZE;
        var batch := if remain > 64 then 64 else remain;
        BatchFits(len - |out|);
        ghost var lb := (off + |out|) / BLOCK_SIZE;
        BatchInRange(first, off, len, |out|, fb, batch);
        BatchNext(first, off, |out|, fb, batch);
        BatchPlace(store, ptr, off, len, |out|, fb, batch);
        var data := DeviceRead(bcache.disk, fb, batch);
        DeviceFollows(store, ptr, d0, bcache.disk, off, true, |out|, lb, batch, fb);
        ghost var more := DeviceBlocks(bcache.disk, fb, batch, lb);
        Extend(store, ptr, d0, bcache.disk, off, true, Wholes(off, |out|), used, out, true, lb, batch, more, data);
        WholesNext(off, |out|, lb, batch);
        out := out + data;
        used := used + more;
        fb := fb + batch;
      }
    }

    /** `limnfs_read_data_sequential`: partial blocks come from the cache, whole ones straight from the device. */
    method ReadSequential(ptr: Roots, off: nat, len: nat) returns (ok: bool, out: seq<byte>, ghost used: map<nat, Block>)
      requires Sane() && FileOk(store, ptr) && len > 0 && off + len <= MAX_POS
      modifies `scratch, `scratch2, `scratch3, bcache, bcache.cache, bcache.table
      ensures Sane() && Settles(old(bcache.disk), bcache.disk, store)
      ensures ok <==> SpotOk(store, ptr, off / BLOCK_SIZE, (off + len - 1) / BLOCK_SIZE - off / BLOCK_SIZE + 1)
      ensures ok ==> Delivered(store, ptr, old(bcache.disk), bcache.disk, off, len, true, used, out)
    {
      hide Backed, Free, FileOk, Lookup, ByteAt, SpotOk, Settles, Sourced, Shows, Wholes, AtBlock, Follows;
      used := map[];
      var a := off / BLOCK_SIZE;
      var n := (off + len - 1) / BLOCK_SIZE - a + 1;
      var spot, first := SpotChecks(ptr, a, n);
      if !spot { return false, [], used; }
      SpotOnDisk(store, ptr, a, n);
      SpotFirst(store, ptr, a, n);
      var fb;
      fb, out, used := ReadHead(ptr, first, off, len, old(bcache.disk));
      fb, out, used := BulkBlocks(ptr, first, off, len, fb, out, used, old(bcache.disk));
      if |out| < len {
        out, used := ReadTail(ptr, first, off, len, fb, out, used, old(bcache.disk));
      }
      ok := true;
    }

    /** The first block of the sequential path, if it is not whole. */
    method ReadHead(ghost ptr: Roots, first: nat, off: nat, len: nat, ghost d0: Store) returns (fb: nat, out: seq<byte>, ghost used: map<nat, Block>)
      requires Sane() && 0 < len && off + len <= MAX_POS && 0 < first == Lookup(store, ptr, off / BLOCK_SIZE) && first < |store|
      requires Settles(d0, bcache.disk, store)
      modifies `scratch, bcache, bcache.cache, bcache.table
      ensures Sane() && Settles(d0, bcache.disk, store) && Sofar(ptr, d0, off, used, out)
      ensures |out| <= len && (|out| == len || AtBlock(first, off, |out|, fb))
    {
      hide Backed, Free, Lookup, ByteAt, Settles, Sourced, Shows, Wholes, AtBlock, Follows;
      fb, out, used := first, [], map[];
      WholesNone(off, 0);
      AtStart(first, off);
      var bo := off % BLOCK_SIZE;
      if bo != 0 {
        var a := off / BLOCK_SIZE;
        var chunk := BLOCK_SIZE - bo;
        if chunk > len { chunk := len; }
        ghost var disk := bcache.disk;
        var ok, data := CachedPart(fb, bo, chunk);
        SettlesTrans(d0, disk, bcache.disk, store);
        SourcedNone(store, ptr, d0, bcache.disk, off, true);
        CachedFollows(store, ptr, d0, bcache.disk, off, true, 0, fb, data);
        Extend(store, ptr, d0, bcache.disk, off, true, {}, used, out, false, a, 1, map[a := store[fb]], data);
        WholesNone(off, chunk);
        AfterPart(first, off, len, chunk);
        out, used := out + data, used + map[a := store[fb]];
        fb := fb + 1;
      } else {
        SourcedNone(store, ptr, d0, bcache.disk, off, true);
      }
    }

    /** The last block of the sequential path, if it is not whole. */
    method ReadTail(ghost ptr: Roots, ghost first: nat, off: nat, len: nat, fb: nat, out0: seq<byte>, ghost used0: map<nat, Block>, ghost d0: Store)
      returns (out: seq<byte>, ghost used: map<nat, Block>)
      requires Sane() && len > 0 && off + len <= MAX_POS && first == Lookup(store, ptr, off / BLOCK_SIZE) > 0
      requires first + ((off + len - 1) / BLOCK_SIZE - off / BLOCK_SIZE + 1) <= |store|
      requires |out0| < len < |out0| + BLOCK_SIZE && AtBlock(first, off, |out0|, fb)
      requires Settles(d0, bcache.disk, store) && Sofar(ptr, d0, off, used0, out0)
      modifies `scratch, bcache, bcache.cache, bcache.table
      ensures Sane() && Settles(d0, bcache.disk, store) && |out| == len && Sofar(ptr, d0, off, used, out)
    {
      hide Backed, Free, Lookup, ByteAt, Settles, Sourced, Shows, Wholes, Follows, Place;
      TailInRange(first, off, len, |out0|, fb);
      TailPlace(store, ptr, off, len, |out0|, fb);
      WholesTail(off, |out0|, len);
      ghost var disk, lb := bcache.disk, (off + |out0|) / BLOCK_SIZE;
      var ok, data := CachedPart(fb, 0, len - |out0|);
      SettlesTrans(d0, disk, bcache.disk, store);
      SourcedLater(store, ptr, d0, disk, bcache.disk, off, true, Wholes(off, |out0|), used0, |out0|);
      CachedFollows(store, ptr, d0, bcache.disk, off, true, |out0|, fb, data);
      Extend(store, ptr, d0, bcache.disk, off, true, Wholes(off, |out0|), used0, out0, false, lb, 1, map[lb := store[fb]], data);
      out, used := out0 + data, used0 + map[lb := store[fb]];
    }

    /**
     `limnfs_read_data`. The output is the file up to `len` bytes, its end or the first hole, exactly when
     the blocks that were fetched past the cache were up to date on the device, provided that a large range
     which passes the spot checks is consecutive.
     */
    method ReadData(ino: nat, off: nat, len: nat) returns (r: int, out: seq<byte>, ghost used: map<nat, Block>)
      requires Valid()
      modifies `scratch, `scratch2, `scratch3, bcache, bcache.cache, bcache.table
      ensures Valid() && (r == -1 <==> ino >= MAX_INODES) && (r != -1 ==> r == |out|) && Settles(old(bcache.disk), bcache.disk, store)
      ensures r != -1 && off >= InodeAt(store, tblStart, ino).size ==> out == []
      ensures r != -1 && off < InodeAt(store, tblStart, ino).size ==>
                var n := InodeAt(store, tblStart, ino);
                var l := if len > n.size - off then n.size - off else len;
                && Delivered(store, n.ptr, old(bcache.disk), bcache.disk, off, l, Fast(store, n.ptr, off, l), used, out)
                && (FastSafe(store, n.ptr, off, l) && Agrees(store, old(bcache.disk), n.ptr, Bulk(store, n.ptr, off, l)) ==>
                      ReadsFile(store, n.ptr, off, l, out))
                && (FastSafe(store, n.ptr, off, l) && bcache.disk == old(bcache.disk) && ReadsFile(store, n.ptr, off, l, out) ==>
                      Agrees(store, old(bcache.disk), n.ptr, Bulk(store, n.ptr, off, l)))
    {
      hide Backed, Free, Tree, In, FileIn, FileOk, FsOk, Owned, FsInv, InodeAt, Lookup, ReadsFile, Settles, Delivered, SpotOk, Agrees, Bulk, FastSafe;
      out, used := [], map[];
      var ok, n := ReadInode(ino);
      ghost var disk := bcache.disk;
      if !ok { return -1, [], used; }
      if off >= n.size { return 0, [], used; }
      TableFile(store, bitmap, tblStart, dataStart, ino);
      var l := len;
      if l > n.size - off { l := n.size - off; }
      var fast := false;
      if l >= 32 * 1024 {
        fast, out, used := ReadSequential(n.ptr, off, l);
        SettlesTrans(old(bcache.disk), disk, bcache.disk, store);
      }
      ghost var mid := bcache.disk;
      if !fast {
        out, used := ReadBlocks(n.ptr, off, l);
        SettlesTrans(old(bcache.disk), mid, bcache.disk, store);
        DeliveredEarlier(store, n.ptr, old(bcache.disk), mid, bcache.disk, off, l, fast, used, out);
      } else {
        DeliveredEarlier(store, n.ptr, old(bcache.disk), disk, bcache.disk, off, l, fast, used, out);
      }
      assert fast == Fast(store, n.ptr, off, l);
      r := |out|;
      if FastSafe(store, n.ptr, off, l) {
        SettlesSizes(old(bcache.disk), bcache.disk, store);
        ReadsFileIff(store, n.ptr, old(bcache.disk), bcache.disk, off, l, used, out);
      }
    }

    /** The block-by-block path, which reads short runs of consecutive blocks in one request past the cache. */
    method ReadBlocks(ptr: Roots, off: nat, len: nat) returns (out: seq<byte>, ghost used: map<nat, Block>)
      requires Sane() && FileOk(store, ptr) && off + len <= MAX_POS
      modifies `scratch, `scratch2, `scratch3, bcache, bcache.cache, bcache.table
      ensures Sane() && Settles(old(bcache.disk), bcache.disk, store)
      ensures Delivered(store, ptr, old(bcache.disk), bcache.disk, off, len, false, used, out)
    {
      hide Backed, Free, FileOk, Lookup, ByteAt, Settles, Sourced, Shows, BulkFrom, RoundOf, RoundBytes;
      out, used := [], map[];
      ghost var bulk: set<nat> := {};
      SourcedNone(store, ptr, bcache.disk, bcache.disk, off, false);
      SettlesBacked();
      var hole := false;
      while |out| < len && !hole
        invariant Sane() && |out| <= len && Settles(old(bcache.disk), bcache.disk, store)
        invariant Sourced(store, ptr, old(bcache.disk), bcache.disk, off, false, bulk, used, |out|) && Shows(used, off, out)
        invariant |out| == 0 || |out| == len || (off + |out|) % BLOCK_SIZE == 0
        invariant hole ==> |out| < len && Lookup(store, ptr, (off + |out|) / BLOCK_SIZE) == 0
        invariant bulk + BulkFrom(store, ptr, off, len, |out|) == BulkFrom(store, ptr, off, len, 0)
        decreases len - |out|, !hole
      {
        var data;
        ghost var more, run;
        hole, data, more, run := ReadRound(ptr, off, len, |out|, old(bcache.disk), bulk, used, out);
        if !hole {
          BulkStep(store, ptr, off, len, |out|, run);
          bulk := Past(bulk, run > 1, (off + |out|) / BLOCK_SIZE, run);
          out, used := out + data, used + more;
        }
      }
      BulkDone(store, ptr, off, len, |out|);
    }

    /** The device has as many blocks as the cache presents. */
    lemma SettlesBacked()
      requires Sane()
      ensures Settles(bcache.disk, bcache.disk, store)
    {
    }

    /** One round of the block-by-block path: a hole, a run fetched past the cache, or part of one block. */
    method ReadRound(ptr: Roots, off: nat, len: nat, p: nat, ghost d0: Store, ghost bulk: set<nat>, ghost used: map<nat, Block>, ghost out: seq<byte>)
      returns (hole: bool, data: seq<byte>, ghost more: map<nat, Block>, ghost run: nat)
      requires Sane() && FileOk(store, ptr) && p == |out| < len && off + len <= MAX_POS && (p == 0 || (off + p) % BLOCK_SIZE == 0)
      requires Settles(d0, bcache.disk, store)
      requires Sourced(store, ptr, d0, bcache.disk, off, false, bulk, used, |out|) && Shows(used, off, out)
      modifies `scratch, `scratch2, `scratch3, bcache, bcache.cache, bcache.table
      ensures Sane() && Settles(d0, bcache.disk, store)
      ensures hole <==> Lookup(store, ptr, (off + p) / BLOCK_SIZE) == 0
      ensures hole ==> Sourced(store, ptr, d0, bcache.disk, off, false, bulk, used, |out|)
      ensures !hole ==> run == RoundOf(store, ptr, off, len, p) && |data| == RoundBytes(off, len, p, run)
      ensures !hole ==> Sourced(store, ptr, d0, bcache.disk, off, false, Past(bulk, run > 1, (off + p) / BLOCK_SIZE, run), used + more, |out + data|)
      ensures !hole ==> Shows(used + more, off, out + data)
    {
      hide Backed, Free, FileOk, Lookup, ByteAt, Settles, Sourced, Shows, Follows, RunFrom, Consecutive, RoundOf;
      more, run, data := map[], 1, [];
      ghost var disk := bcache.disk;
      var lb, bo := (off + p) / BLOCK_SIZE, (off + p) % BLOCK_SIZE;
      var d := GetFileBlock(ptr, lb);
      hole := d == 0;
      if !hole {
        ghost var was := bcache.disk;
        var length := RoundLength(ptr, off, len, p, d);
        SettlesTrans(disk, was, bcache.disk, store);
        run := length;
        RoundOnDisk(store, ptr, off, len, p);
        if length > 1 {
          data := DeviceRead(bcache.disk, d, length);
        } else {
          ghost var mid := bcache.disk;
          var ok;
          var chunk := BLOCK_SIZE - bo;
          if chunk > len - p { chunk := len - p; }
          ok, data := CachedPart(d, bo, chunk);
          SettlesTrans(disk, mid, bcache.disk, store);
        }
      }
      SettlesTrans(d0, disk, bcache.disk, store);
      SourcedLater(store, ptr, d0, disk, bcache.disk, off, false, bulk, used, |out|);
      if !hole {
        if run > 1 {
          more := DeviceBlocks(bcache.disk, d, run, lb);
          DeviceFollows(store, ptr, d0, bcache.disk, off, false, |out|, lb, run, d);
        } else {
          more := map[lb := store[d]];
          CachedFollows(store, ptr, d0, bcache.disk, off, false, |out|, d, data);
        }
        Extend(store, ptr, d0, bcache.disk, off, false, bulk, used, out, run > 1, lb, run, more, data);
      }
    }

    /** How many blocks a round takes. */
    method RoundLength(ptr: Roots, off: nat, len: nat, p: nat, d: nat) returns (run: nat)
      requires Sane() && FileOk(store, ptr) && p < len && off + len <= MAX_POS && d == Lookup(store, ptr, (off + p) / BLOCK_SIZE)
      modifies `scratch2, `scratch3, bcache, bcache.cache, bcache.table
      ensures Sane() && Settles(old(bcache.disk), bcache.disk, store) && run == RoundOf(store, ptr, off, len, p)
    {
      hide Backed, Free, FileOk, Lookup, Settles, RunFrom;
      SettlesBacked();
      run := 1;
      if (off + p) % BLOCK_SIZE == 0 && len - p >= BLOCK_SIZE {
        run := RunLength(ptr, (off + p) / BLOCK_SIZE, d, (len - p) / BLOCK_SIZE);
      }
    }

    /** How many logical blocks from `lb` on (at most 8, at most `max`) are consecutive on disk. */
    method RunLength(ptr: Roots, lb: nat, d: nat, max: nat) returns (run: nat)
      requires Sane() && FileOk(store, ptr) && 1 <= max && lb + max <= MAX_LOGICAL && d == Lookup(store, ptr, lb)
      modifies `scratch2, `scratch3, bcache, bcache.cache, bcache.table
      ensures Sane() && Settles(old(bcache.disk), bcache.disk, store)
      ensures run == RunFrom(store, ptr, lb, if max > 8 then 8 else max, 1)
    {
      hide Backed, Free, FileOk, Lookup, Settles;
      SettlesBacked();
      run := 1;
      var maxRun := if max > 8 then 8 else max;
      while run < maxRun
        invariant Sane() && Settles(old(bcache.disk), bcache.disk, store)
        invariant 1 <= run <= maxRun && RunFrom(store, ptr, lb, maxRun, 1) == RunFrom(store, ptr, lb, maxRun, run)
      {
        ghost var disk := bcache.disk;
        var next := GetFileBlock(ptr, lb + run);
        SettlesTrans(old(bcache.disk), disk, bcache.disk, store);
        if next != d + run { break; }
        run := run + 1;
      }
    }

    /** `bcache_flush` with no other call in between. */
    method FlushAll()
      requires Valid()
      modifies bcache, bcache.cache, bcache.table
      ensures Valid() && bcache.disk == store
    {
      hide Free, DiskOk;
      bcache.Flush();
    }

    /**
     Writing, flushing and reading back: the bytes written are returned exactly when they end below the
     largest size that the inode can record.
     */
    method WriteFlushRead(ino: nat, off: nat, buf: seq<byte>) returns (written: int, out: seq<byte>)
      requires Valid() && ino < MAX_INODES && off + |buf| <= MAX_POS
      modifies `bitmap, `freeBlocks, `hint, `store, `scratch, `scratch2, `scratch3, bcache, bcache.cache, bcache.table
      ensures Valid() && 0 <= written <= |buf|
      ensures written > 0 && FastSafe(store, InodeAt(store, tblStart, ino).ptr, off, written) ==>
                (out == buf[..written] <==> off + written < 0x1_0000_0000)
    {
      hide Backed, Free, DiskOk, InodeAt, Lookup, ReadsFile, Wrote, OnlyFile, Delivered, FastSafe, Bulk, Settles, TidyTable;
      written := WriteData(ino, off, buf);
      ghost var st0, ptr0 := old(store), InodeAt(old(store), tblStart, ino).ptr;
      FlushAll();
      ghost var n, used;
      n := InodeAt(store, tblStart, ino);
      var r;
      r, out, used := ReadData(ino, off, written);
      if written > 0 && off + written < 0x1_0000_0000 {
        ReadAfterWrite(st0, ptr0, store, n.ptr, off, buf, written, out);
      } else if written > 0 && off < n.size {
        DeliveredLength(store, n.ptr, store, bcache.disk, off, n.size - off, Fast(store, n.ptr, off, n.size - off), used, out);
      }
    }

    // ----- Directories -----

    /** `lfs_str_eq` on the name of entry `i` of the loaded block. */
    method NameMatches(i: nat, name: seq<byte>) returns (eq: bool)
      requires i < PER_DIR_BLOCK && 0 !in name
      ensures eq <==> DirEntry(scratch, i).name == name
    {
      hide Backed, ByteAt, CStr;
      var base := 64 * i + 6;
      var k := 0;
      assert name[0..] == name;
      while k < NAME_MAX && ByteAt(scratch, base + k) != 0 && k < |name|
        invariant k <= NAME_MAX && k <= |name|
        invariant CStr(scratch, base, NAME_MAX) == name <==> CStr(scratch, base + k, NAME_MAX - k) == name[k..]
      {
        CStrCompare(scratch, base + k, NAME_MAX - k, name[k..]);
        assert name[k..][0] == name[k] && name[k..][1..] == name[k + 1..];
        if ByteAt(scratch, base + k) != name[k] { return false; }
        k := k + 1;
      }
      CStrCompare(scratch, base + k, NAME_MAX - k, name[k..]);
      eq := (k == NAME_MAX || ByteAt(scratch, base + k) == 0) && k == |name|;
    }

    /** Looks for `name` among the entries of the loaded block, from entry number `read` of the directory on. */
    method ScanName(ghost ptr: Roots, read0: nat, total: nat, name: seq<byte>) returns (found: bool, read: nat)
      requires 0 !in name && read0 < total <= PER_DIR_BLOCK * MAX_LOGICAL && read0 % PER_DIR_BLOCK == 0
      requires var d := Lookup(store, ptr, read0 / PER_DIR_BLOCK); 0 < d < |store| && scratch == store[d]
      ensures read0 <= read <= total && Find(store, ptr, total, name, read0) == Find(store, ptr, total, name, read)
      ensures found ==> read < total && read == Find(store, ptr, total, name, read) && read / PER_DIR_BLOCK == read0 / PER_DIR_BLOCK
      ensures !found ==> read == total || read == read0 + PER_DIR_BLOCK
    {
      hide Backed, Lookup, DirEntry;
      var i := 0;
      read := read0;
      while i < PER_DIR_BLOCK && read < total
        invariant i <= PER_DIR_BLOCK && read == read0 + i && read <= total
        invariant Find(store, ptr, total, name, read0) == Find(store, ptr, total, name, read)
      {
        assert read / PER_DIR_BLOCK == read0 / PER_DIR_BLOCK && read % PER_DIR_BLOCK == i;
        assert scratch[16 * i] == EntryAt(store, ptr, read).ino by { EntryIno(scratch, i); }
        if scratch[16 * i] != 0 {
          var eq := NameMatches(i, name);
          if eq { return true, read; }
        }
        i := i + 1;
        read := read + 1;
      }
      found := false;
    }

    /** The entry that `limnfs_dir_lookup` and `limnfs_dir_remove` stop at, left loaded in the scratch block. */
    method FindName(ptr: Roots, total: nat, name: seq<byte>) returns (found: bool, e: nat, d: nat)
      requires Sane() && FileOk(store, ptr) && 0 !in name && total <= PER_DIR_BLOCK * MAX_LOGICAL
      modifies `scratch, `scratch2, `scratch3, bcache, bcache.cache, bcache.table
      ensures Sane() && (found <==> Find(store, ptr, total, name, 0) < total)
      ensures found ==> e == Find(store, ptr, total, name, 0) && d == Lookup(store, ptr, e / PER_DIR_BLOCK)
      ensures found ==> 0 < d < |store| && scratch == store[d]
    {
      hide Backed, FileOk, Lookup, EntryAt;
      var lb, read := 0, 0;
      e := 0;
      while read < total
        invariant Sane() && read <= total && (read < total ==> read == lb * PER_DIR_BLOCK)
        invariant Find(store, ptr, total, name, 0) == Find(store, ptr, total, name, read)
        decreases total - read
      {
        d := GetFileBlock(ptr, lb);
        if d == 0 { return false, 0, 0; }
        LookupData(store, ptr, lb);
        scratch := Fetch(d);
        found, read := ScanName(ptr, read, total, name);
        if found { return true, read, d; }
        lb := lb + 1;
      }
      return false, 0, 0;
    }

    /** `limnfs_dir_lookup`: the inode of the first live entry called `name`, or -1. */
    method DirLookup(dirIno: nat, name: seq<byte>) returns (r: int)
      requires Valid() && 0 !in name
      modifies `scratch, `scratch2, `scratch3, bcache, bcache.cache, bcache.table
      ensures Valid() && (r == -1 || 0 < r)
      ensures dirIno >= MAX_INODES || InodeAt(store, tblStart, dirIno).kind != TYPE_DIR ==> r == -1
      ensures dirIno < MAX_INODES && InodeAt(store, tblStart, dirIno).kind == TYPE_DIR ==>
                var n := InodeAt(store, tblStart, dirIno);
                var e := Find(store, n.ptr, n.size / 64, name, 0);
                r == if e < n.size / 64 then EntryAt(store, n.ptr, e).ino else -1
    {
      hide Backed, FileOk, Lookup, FsInv, InodeAt, Free;
      var ok, n := ReadInode(dirIno);
      if !ok || n.kind != TYPE_DIR { return -1; }
      TableFile(store, bitmap, tblStart, dataStart, dirIno);
      var found, e, d := FindName(n.ptr, n.size / 64, name);
      if !found { return -1; }
      r := scratch[16 * (e % PER_DIR_BLOCK)];
    }

    /** `limnfs_dir_remove`: clears the first live entry called `name`. */
    method DirRemove(dirIno: nat, name: seq<byte>) returns (ok: bool)
      requires Valid() && 0 !in name
      modifies `scratch, `scratch2, `scratch3, `store, bcache, bcache.cache, bcache.table
      ensures Valid() && (!ok ==> store == old(store))
      ensures ok ==> dirIno < MAX_INODES && OnlyFile(old(store), bitmap, store, bitmap, tblStart, dataStart, dirIno, InodeAt(old(store), tblStart, dirIno))
      ensures ok <==> dirIno < MAX_INODES && InodeAt(old(store), tblStart, dirIno).kind == TYPE_DIR &&
                      var n := InodeAt(old(store), tblStart, dirIno);
                      Find(old(store), n.ptr, n.size / 64, name, 0) < n.size / 64
      ensures ok ==> var n := InodeAt(old(store), tblStart, dirIno);
                     Unlinked(old(store), store, tblStart, dirIno, Find(old(store), n.ptr, n.size / 64, name, 0))
    {
      hide Backed, Tree, In, FileIn, FileOk, FsOk, Owned, FsInv, InodeAt, PutInode, Leaked, Untouched, Free, Lookup, OneEntry, DirEntry, ByteAt, SetByte, EntryAt;
      var isInode, n := ReadInode(dirIno);
      if !isInode || n.kind != TYPE_DIR { return false; }
      TableFile(store, bitmap, tblStart, dataStart, dirIno);
      var found, e, d := FindName(n.ptr, n.size / 64, name);
      if !found { return false; }
      var i := e % PER_DIR_BLOCK;
      ghost var b := scratch;
      scratch := scratch[16 * i := 0];
      scratch := SetByte(scratch, 64 * i + 6, 0);
      ClearedEntry(b, i);
      EntryLoaded(store, n.ptr, e, d);
      EntryWrite(store, n.ptr, e, scratch);
      StoredMap(store, n.ptr, e / PER_DIR_BLOCK, scratch);
      GrowNone(store, n.ptr, bitmap, dataStart);
      DataChange(store, n.ptr, bitmap, store, n.ptr, bitmap, e / PER_DIR_BLOCK, scratch);
      hide Change;
      ghost var st0 := store;
      Put(d, scratch);
      FinishData(st0, bitmap, tblStart, dataStart, dirIno, store);
      UnlinkedBy(st0, bitmap, store, tblStart, dataStart, dirIno, e);
      ok := true;
    }

    /** Looks for an unused entry in the loaded block, from entry number `read0` of the directory on. */
    method ScanUnused(ghost ptr: Roots, read0: nat, total: nat) returns (found: bool, read: nat)
      requires read0 < total <= PER_DIR_BLOCK * MAX_LOGICAL && read0 % PER_DIR_BLOCK == 0
      requires var d := Lookup(store, ptr, read0 / PER_DIR_BLOCK); 0 < d < |store| && scratch == store[d]
      ensures read0 <= read <= total && FindUnused(store, ptr, total, read0) == FindUnused(store, ptr, total, read)
      ensures found ==> read < total && read == FindUnused(store, ptr, total, read) && read / PER_DIR_BLOCK == read0 / PER_DIR_BLOCK
      ensures !found ==> read == if total < read0 + PER_DIR_BLOCK then total else read0 + PER_DIR_BLOCK
    {
      hide Backed, Lookup, DirEntry;
      var end := total - read0;
      if end > PER_DIR_BLOCK { end := PER_DIR_BLOCK; }
      var i := 0;
      read := read0;
      while i < end
        invariant i <= end && read == read0 + i
        invariant FindUnused(store, ptr, total, read0) == FindUnused(store, ptr, total, read)
      {
        assert read / PER_DIR_BLOCK == read0 / PER_DIR_BLOCK && read % PER_DIR_BLOCK == i;
        assert scratch[16 * i] == EntryAt(store, ptr, read).ino by { EntryIno(scratch, i); }
        if scratch[16 * i] == 0 { return true, read; }
        i := i + 1;
        read := read + 1;
      }
      found := false;
    }

    method FindSlot(ptr: Roots, total: nat) returns (found: bool, e: nat, d: nat)
      requires Sane() && FileOk(store, ptr) && total <= PER_DIR_BLOCK * MAX_LOGICAL
      modifies `scratch, `scratch2, `scratch3, bcache, bcache.cache, bcache.table
      ensures Sane() && (found <==> FindUnused(store, ptr, total, 0) < total)
      ensures found ==> e == FindUnused(store, ptr, total, 0) && d == Lookup(store, ptr, e / PER_DIR_BLOCK)
      ensures found ==> 0 < d < |store| && scratch == store[d]
    {
      hide Backed, FileOk, Lookup, EntryAt;
      var lb := 0;
      ghost var read := 0;
      e := 0;
      while lb * PER_DIR_BLOCK < total
        invariant Sane() && read == if lb * PER_DIR_BLOCK < total then lb * PER_DIR_BLOCK else total
        invariant FindUnused(store, ptr, total, 0) == FindUnused(store, ptr, total, read)
        decreases total - read
      {
        d := GetFileBlock(ptr, lb);
        if d == 0 { return false, 0, 0; }
        LookupData(store, ptr, lb);
        scratch := Fetch(d);
        found, e := ScanUnused(ptr, lb * PER_DIR_BLOCK, total);
        if found { return true, e, d; }
        lb := lb + 1;
        read := e;
      }
      return false, 0, 0;
    }

    /** Stores inode number, name length, type and name in entry `i` of the loaded block. */
    method FillEntry(i: nat, child: u32, kind: byte, name: seq<byte>)
      requires i < PER_DIR_BLOCK && 0 < |name| < NAME_MAX && 0 !in name
      modifies `scratch
      ensures WordsSame(old(scratch), scratch, i) && DirEntry(scratch, i) == Named(child, kind, name)
      ensures old(Sane()) ==> Sane()
    {
      hide Backed, ByteAt, SetByte, Filling, WordsSame;
      FillStart(scratch, i, child, kind, name);
      scratch := scratch[16 * i := child];
      scratch := SetByte(scratch, 64 * i + 4, |name|);
      scratch := SetByte(scratch, 64 * i + 5, kind);
      var j := 0;
      while j < |name|
        invariant j <= |name| && Filling(old(scratch), scratch, i, child, kind, name, j) && (old(Sane()) ==> Sane())
      {
        FillStep(old(scratch), scratch, i, child, kind, name, j);
        scratch := SetByte(scratch, 64 * i + 6 + j, name[j]);
        j := j + 1;
      }
      FillEnd(old(scratch), scratch, i, child, kind, name);
      scratch := SetByte(scratch, 64 * i + 6 + |name|, 0);
    }

    /** Writes the entry into the loaded directory block `d`; the inode stays as it is on disk. */
    method PutEntry(ptr: Roots, e: nat, d: nat, child: u32, kind: byte, name: seq<byte>)
      requires Sane() && FileOk(store, ptr) && e / PER_DIR_BLOCK < MAX_LOGICAL
      requires 0 < d < |store| && d == Lookup(store, ptr, e / PER_DIR_BLOCK) && scratch == store[d]
      requires 0 < |name| < NAME_MAX && 0 !in name
      modifies `scratch, `store, bcache, bcache.cache, bcache.table
      ensures Sane() && |store| == |old(store)| && store == old(store)[d := store[d]]
      ensures OneEntry(old(store), ptr, store, ptr, e, Named(child, kind, name)) && SameFile(old(store), store, ptr)
    {
      hide Backed, FileOk, Lookup, OneEntry, DirEntry, WordsSame, Free, SameFile;
      FillEntry(e % PER_DIR_BLOCK, child, kind, name);
      EntryWrite(store, ptr, e, scratch);
      StoredMap(store, ptr, e / PER_DIR_BLOCK, scratch);
      Put(d, scratch);
    }

    /**
     `limnfs_dir_add`: uses the first unused entry, or appends one.  It succeeds exactly when there is room
     in a directory for a legal name; a failure loses one block exactly when `Loses` says so, else none.
     */
    method DirAdd(dirIno: nat, name: seq<byte>, child: u32, kind: byte) returns (ok: bool, ghost at: nat, ghost lost: set<int>)
      requires Valid() && 0 !in name
      modifies `bitmap, `freeBlocks, `hint, `store, `scratch, `scratch2, `scratch3, bcache, bcache.cache, bcache.table
      ensures Valid() && |store| == |old(store)|
      ensures ok <==> dirIno < MAX_INODES && 0 < |name| < NAME_MAX && InodeAt(old(store), tblStart, dirIno).kind == TYPE_DIR &&
                      Room(old(store), InodeAt(old(store), tblStart, dirIno), old(freeBlocks))
      ensures ok ==> DirAdded(old(store), old(bitmap), store, bitmap, tblStart, dataStart, dirIno, at, Named(child, kind, name))
      ensures !ok ==> Abandoned(old(store), old(bitmap), store, bitmap, tblStart, dataStart, lost)
      ensures !ok ==> |lost| == if dirIno < MAX_INODES && 0 < |name| < NAME_MAX && InodeAt(old(store), tblStart, dirIno).kind == TYPE_DIR &&
                                   Loses(old(store), InodeAt(old(store), tblStart, dirIno), old(freeBlocks)) then 1 else 0
    {
      hide Backed, Tree, In, FileIn, FileOk, FsOk, Owned, FsInv, InodeAt, PutInode, Leaked, Untouched, Free, Lookup, OneEntry, DirEntry, EntryAt, Change;
      hide FindUnused, Loses, SameFile, Extended, Present;
      at, lost := 0, {};
      var isInode, n := ReadInode(dirIno);
      if !isInode || n.kind != TYPE_DIR || |name| == 0 || |name| > 57 {
        NothingAbandoned(store, bitmap, tblStart, dataStart);
        return false, 0, {};
      }
      TableFile(store, bitmap, tblStart, dataStart, dirIno);
      var found, e, d := FindSlot(n.ptr, n.size / 64);
      if found {
        ghost var st0 := store;
        PresentBy(store, n.ptr, e, d);
        ExtendedSelf(store, n.ptr, e);
        PutEntry(n.ptr, e, d, child, kind, name);
        ghost var b := store[d];
        ExtendedFrame(st0, n.ptr, st0, n.ptr, store, e);
        GrowNone(st0, n.ptr, bitmap, dataStart);
        DataChange(st0, n.ptr, bitmap, st0, n.ptr, bitmap, e / PER_DIR_BLOCK, b);
        FinishData(st0, bitmap, tblStart, dataStart, dirIno, store);
        TableEntry(st0, bitmap, store, bitmap, tblStart, dataStart, dirIno, n);
        return true, e, {};
      }
      ok, lost := DirAppend(dirIno, n, name, child, kind);
      at := n.size / 64;
    }

    method DirAppend(dirIno: nat, n0: Inode, name: seq<byte>, child: u32, kind: byte) returns (ok: bool, ghost lost: set<int>)
      requires Valid() && dirIno < MAX_INODES && n0 == InodeAt(store, tblStart, dirIno) && n0.kind == TYPE_DIR
      requires 0 < |name| < NAME_MAX && 0 !in name && FindUnused(store, n0.ptr, n0.size / 64, 0) == n0.size / 64
      modifies `bitmap, `freeBlocks, `hint, `store, `scratch, `scratch2, `scratch3, bcache, bcache.cache, bcache.table
      ensures Valid() && (ok <==> Room(old(store), n0, old(freeBlocks)))
      ensures ok ==> DirAdded(old(store), old(bitmap), store, bitmap, tblStart, dataStart, dirIno, n0.size / 64, Named(child, kind, name))
      ensures !ok ==> Abandoned(old(store), old(bitmap), store, bitmap, tblStart, dataStart, lost)
      ensures !ok ==> |lost| == if Loses(old(store), n0, old(freeBlocks)) then 1 else 0
    {
      hide Backed, Tree, In, FileIn, FileOk, FsOk, Owned, FsInv, InodeAt, PutInode, Leaked, Untouched, Free, Lookup, OneEntry, DirEntry, EntryAt, Change;
      hide FindUnused, Loses, SameFile, Extended, Present, Missing, Grow, Placed, FileBlocks, Adds;
      var n, e := n0, n0.size / 64;
      var lb := e / PER_DIR_BLOCK;
      lost := {};
      ghost var st0, bm0 := store, bitmap;
      TableFile(store, bitmap, tblStart, dataStart, dirIno);
      var d := GetFileBlock(n.ptr, lb);
      if d == 0 {
        d, n := AllocFileBlock(n, lb);
        if d == 0 {
          ghost var r := SlotOf(lb).root;
          lost := FileBlocks(store, n.ptr) - FileBlocks(store, n0.ptr);
          AbandonOp(st0, bm0, tblStart, dataStart, dirIno, store, n.ptr, bitmap, r);
          if n0.ptr[r] == 0 {
            GrownFresh(st0, n0.ptr, bm0, store, n.ptr, bitmap, dataStart, r);
            LossCount(st0, n0, old(freeBlocks));
          } else {
            NoLossWithRoot(st0, n0, old(freeBlocks));
          }
          return false, lost;
        }
        ChangeOk(st0, n0.ptr, bm0, store, n.ptr, bitmap);
        EntriesPlaced(st0, n0.ptr, store, n.ptr, lb, d);
        PlacedAt(st0, n0.ptr, store, n.ptr, lb, d);
        ExtendedPlaced(st0, n0.ptr, store, n.ptr, e, d);
      } else {
        GrowNone(store, n.ptr, bitmap, dataStart);
        GrowMap(st0, n0.ptr, bm0, store, n.ptr, bitmap, {});
        LookupData(store, n.ptr, lb);
        PresentBy(store, n.ptr, e, d);
        ExtendedSelf(store, n.ptr, e);
      }
      ok := PutAppended(dirIno, n0, n, d, name, child, kind, st0, bm0);
    }

    /** Stores the new last entry and the inode with its new size. */
    method PutAppended(dirIno: nat, ghost n0: Inode, n1: Inode, d: nat, name: seq<byte>, child: u32, kind: byte, ghost st0: Store, ghost bm0: Bits)
      returns (ok: bool)
      requires Sane() && DiskOk(st0, bm0, tblStart, dataStart) && dirIno < MAX_INODES && n0 == InodeAt(st0, tblStart, dirIno)
      requires n0.kind == TYPE_DIR && n1 == n0.(ptr := n1.ptr, blockCount := n1.blockCount) && |st0| == |store| <= |bm0|
      requires 0 < |name| < NAME_MAX && 0 !in name && FindUnused(st0, n0.ptr, n0.size / 64, 0) == n0.size / 64
      requires Change(st0, n0.ptr, bm0, store, n1.ptr, bitmap, {}) && Extended(st0, n0.ptr, store, n1.ptr, n0.size / 64)
      requires 0 < d < |store| && d == Lookup(store, n1.ptr, n0.size / 64 / PER_DIR_BLOCK)
      requires forall x :: 0 <= x < PER_DIR_BLOCK * MAX_LOGICAL ==> EntryAt(store, n1.ptr, x) == EntryAt(st0, n0.ptr, x)
      modifies `store, `scratch, bcache, bcache.cache, bcache.table
      ensures Valid() && ok
      ensures DirAdded(st0, bm0, store, bitmap, tblStart, dataStart, dirIno, n0.size / 64, Named(child, kind, name))
    {
      hide Backed, Tree, In, FileIn, FileOk, FsOk, Owned, FsInv, InodeAt, PutInode, Leaked, Untouched, Free, Lookup, OneEntry, DirEntry, EntryAt, Change;
      hide FindUnused, SameFile, Extended;
      var e := n1.size / 64;
      ghost var lb := e / PER_DIR_BLOCK;
      ChangeOk(st0, n0.ptr, bm0, store, n1.ptr, bitmap);
      scratch := Fetch(d);
      ghost var st1 := store;
      PutEntry(n1.ptr, e, d, child, kind, name);
      ghost var b := store[d];
      OneEntryPlaced(st0, n0.ptr, st1, n1.ptr, store, e, Named(child, kind, name));
      ExtendedFrame(st0, n0.ptr, st1, n1.ptr, store, e);
      DataChange(st0, n0.ptr, bm0, st1, n1.ptr, bitmap, lb, b);
      var n := n1.(size := (e + 1) * 64 % 0x1_0000_0000);
      ghost var st2 := store;
      ok := WriteInode(dirIno, n);
      FinishOp(st0, bm0, tblStart, dataStart, dirIno, st2, n, bitmap, store);
      TableEntry(st0, bm0, store, bitmap, tblStart, dataStart, dirIno, n);
      ChangeOk(st0, n0.ptr, bm0, st2, n.ptr, bitmap);
      OneEntryFrame(st0, n0.ptr, st2, n.ptr, store, e, Named(child, kind, name));
      UntouchedSame(st2, store, n.ptr);
      ExtendedFrame(st0, n0.ptr, st2, n.ptr, store, e);
    }

    method ScanLive(ghost ptr: Roots, read0: nat, total: nat, seen0: nat, index: nat) returns (found: bool, read: nat, seen: nat)
      requires read0 < total <= PER_DIR_BLOCK * MAX_LOGICAL && read0 % PER_DIR_BLOCK == 0 && seen0 <= index
      requires var d := Lookup(store, ptr, read0 / PER_DIR_BLOCK); 0 < d < |store| && scratch == store[d]
      ensures read0 <= read <= total && seen <= index
      ensures FindNth(store, ptr, total, index - seen0, read0) == FindNth(store, ptr, total, index - seen, read)
      ensures found ==> read < total && read == FindNth(store, ptr, total, index - seen, read)
      ensures found ==> DirEntry(scratch, read % PER_DIR_BLOCK) == EntryAt(store, ptr, read)
      ensures !found ==> read == if total < read0 + PER_DIR_BLOCK then total else read0 + PER_DIR_BLOCK
    {
      hide Backed, Lookup, DirEntry;
      var i := 0;
      read, seen := read0, seen0;
      while i < PER_DIR_BLOCK && read < total
        invariant i <= PER_DIR_BLOCK && read == read0 + i && read <= total && seen <= index
        invariant FindNth(store, ptr, total, index - seen0, read0) == FindNth(store, ptr, total, index - seen, read)
      {
        assert read / PER_DIR_BLOCK == read0 / PER_DIR_BLOCK && read % PER_DIR_BLOCK == i;
        assert scratch[16 * i] == EntryAt(store, ptr, read).ino by { EntryIno(scratch, i); }
        if scratch[16 * i] != 0 {
          if seen == index { return true, read, seen; }
          seen := seen + 1;
        }
        i := i + 1;
        read := read + 1;
      }
      found := false;
    }

    /** `limnfs_dir_iter`: whether the directory has an entry number `index`, which one, and a copy of it. */
    method DirIter(dirIno: nat, index: nat) returns (found: bool, e: nat, out: Entry)
      requires Valid()
      modifies `scratch, `scratch2, `scratch3, bcache, bcache.cache, bcache.table
      ensures Valid()
      ensures found <==> dirIno < MAX_INODES && InodeAt(store, tblStart, dirIno).kind == TYPE_DIR &&
                         var n := InodeAt(store, tblStart, dirIno);
                         FindNth(store, n.ptr, n.size / 64, index, 0) < n.size / 64
      ensures dirIno < MAX_INODES && InodeAt(store, tblStart, dirIno).kind == TYPE_DIR ==>
                var n := InodeAt(store, tblStart, dirIno);
                && (found <==> Lives(store, n.ptr, 0, Extent(store, n.ptr, n.size / 64, 0)) > index)
                && (found ==> e < n.size / 64 && EntryAt(store, n.ptr, e).ino != 0 && Lives(store, n.ptr, 0, e) == index)
                && (found ==> out == EntryAt(store, n.ptr, e))
    {
      hide Backed, FileOk, Lookup, FsInv, InodeAt, Free, EntryAt, Lives, Extent, FindNth, Settles;
      e, out := 0, NO_ENTRY;
      var ok, n := ReadInode(dirIno);
      if !ok || n.kind != TYPE_DIR { return false, 0, NO_ENTRY; }
      TableFile(store, bitmap, tblStart, dataStart, dirIno);
      FindNthIs(store, n.ptr, n.size / 64, index, 0);
      found, e := FindLive(n.ptr, n.size / 64, index);
      if found { out := DirEntry(scratch, e % PER_DIR_BLOCK); }
    }

    /** The entry that `limnfs_dir_iter` stops at. */
    method FindLive(ptr: Roots, total: nat, index: nat) returns (found: bool, e: nat)
      requires Sane() && FileOk(store, ptr) && total <= PER_DIR_BLOCK * MAX_LOGICAL
      modifies `scratch, `scratch2, `scratch3, bcache, bcache.cache, bcache.table
      ensures Sane() && (found <==> FindNth(store, ptr, total, index, 0) < total) && (found ==> e == FindNth(store, ptr, total, index, 0))
      ensures found ==> DirEntry(scratch, e % PER_DIR_BLOCK) == EntryAt(store, ptr, e)
    {
      hide Backed, FileOk, Lookup, Free, EntryAt, Settles;
      e := 0;
      var lb, read := 0, 0;
      var seen: nat := 0;
      while read < total
        invariant Sane() && read <= total && (read < total ==> read == lb * PER_DIR_BLOCK) && seen <= index
        invariant FindNth(store, ptr, total, index, 0) == FindNth(store, ptr, total, index - seen, read)
        decreases total - read
      {
        var d := GetFileBlock(ptr, lb);
        if d == 0 { return false, 0; }
        LookupData(store, ptr, lb);
        scratch := Fetch(d);
        found, read, seen := ScanLive(ptr, read, total, seen, index);
        if found { return true, read; }
        lb := lb + 1;
      }
      return false, 0;
    }

    // ----- Create and delete -----

    ghost function Now(): Disk
      reads `store, `bitmap, `inodeBitmap, `freeBlocks, `tblStart, `dataStart
    {
      Disk(store, bitmap, inodeBitmap, freeBlocks, tblStart, dataStart)
    }

    lemma NowConsistent()
      requires Valid()
      ensures Consistent(Now())
    {
      hide DiskOk, Free;
    }

    /**
     `limnfs_create_file` and `limnfs_create_dir`.  Success, the blocks lost and the names afterwards are
     exactly as the state before the call decides.
     */
    method Create(parent: u32, name: seq<byte>, dir: bool) returns (ino: int, ghost at: nat, ghost lost: set<int>)
      requires Valid() && 0 !in name
      modifies `bitmap, `freeBlocks, `hint, `store, `scratch, `scratch2, `scratch3, `inodeBitmap, `freeInodes, bcache, bcache.cache, bcache.table
      ensures Valid() && |store| == |old(store)|
      ensures Consistent(old(Now())) && Consistent(Now())
      ensures ino != -1 <==> Admissible(old(Now()), parent, name, dir) && Room(old(store), Target(old(Now()), parent, dir), old(freeBlocks))
      ensures ino == -1 || ino == NextIno(old(inodeBitmap)) < MAX_INODES
      ensures inodeBitmap == if ino == -1 then old(inodeBitmap) else old(inodeBitmap)[ino := true]
      ensures Lost(Now()) == Lost(old(Now())) + lost && lost !! Lost(old(Now())) && (lost != {} <==> CreateCosts(old(Now()), parent, name, dir))
      ensures ino == -1 ==> Kept(old(store), store, tblStart, {NextIno(old(inodeBitmap)) as int})
      ensures ino != -1 ==> Kept(old(store), store, tblStart, {ino, parent as int})
      ensures ino != -1 && ino != parent ==>
                && InodeAt(store, tblStart, ino) == FreshInode(parent, dir)
                && Linked(old(store), store, tblStart, parent, at, Named(ino, KindOf(dir), name))
                && FreshEntry(store, tblStart, ino, parent, dir, at, name)
                && (at < InodeAt(old(store), tblStart, parent).size / 64 || InodeAt(old(store), tblStart, parent).size / 64 + 1 < 0x400_0000 ==>
                      NamesAdded(old(store), store, tblStart, parent, at, name))
      ensures old(Tidy()) ==> Tidy()
      ensures AllSolid(old(store), tblStart) ==> AllSolid(store, tblStart)
      ensures Miscount() == old(Miscount())
    {
      hide Backed, DiskOk, Free, InodeAt, Kept, Linked, NamesAdded, AllSolid, TidyTable, Room, CreateCosts, Admissible, Target, FreshInode, Leaked, TableRoots;
      hide FreshEntry, KindOf;
      ghost var st0, bm0, st1 := store, bitmap, store;
      NowConsistent();
      ino, at, lost, st1 := MakeEntry(parent, name, dir);
      NowConsistent();
      ghost var next := NextIno(old(inodeBitmap));
      assert Consistent(old(Now())) && Consistent(Now());
      if ino != -1 {
        Created(st0, bm0, st1, ino, parent, dir, at, name, old(inodeBitmap));
      } else if next < MAX_INODES {
        NotCreated(st0, next, old(inodeBitmap));
      }
    }

    /** The calls of a creation; `st1` is the disk with the fresh inode stored. */
    method MakeEntry(parent: u32, name: seq<byte>, dir: bool) returns (ino: int, ghost at: nat, ghost lost: set<int>, ghost st1: Store)
      requires Valid() && 0 !in name
      modifies `bitmap, `freeBlocks, `hint, `store, `scratch, `scratch2, `scratch3, `inodeBitmap, `freeInodes, bcache, bcache.cache, bcache.table
      ensures Valid() && Consistent(old(Now())) && Consistent(Now())
      ensures ino != -1 <==> Admissible(old(Now()), parent, name, dir) && Room(old(store), Target(old(Now()), parent, dir), old(freeBlocks))
      ensures Lost(Now()) == Lost(old(Now())) + lost && lost !! Lost(old(Now())) && (lost != {} <==> CreateCosts(old(Now()), parent, name, dir))
      ensures if ino == -1 then Unentered(old(Now()), Now())
              else ino > 0 && Entered(old(Now()), Now(), parent, name, dir, ino, at, st1)
      ensures Miscount() == old(Miscount())
    {
      hide Backed, DiskOk, Free, Admissible, CreateCosts, Room, Target, Entered, Lost, InodeAt, Kept;
      at, lost, st1 := 0, {}, store;
      ghost var d0 := Now();
      NowConsistent();
      ino := AllocInode();
      if ino < 0 {
        KeptSelf(store, tblStart);
        KeptMore(store, store, tblStart, {}, {NextIno(d0.ibm) as int});
        NoInode(d0, parent, name, dir);
        return;
      }
      var ok;
      ok, at, lost, st1 := Enter(ino, parent, name, dir, d0);
      if !ok { ino := -1; }
    }

    /** Stores the inode that was taken and links it; gives it back when that fails. */
    method Enter(ino: nat, parent: u32, name: seq<byte>, dir: bool, ghost d0: Disk) returns (ok: bool, ghost at: nat, ghost lost: set<int>, ghost st1: Store)
      requires Valid() && 0 !in name && Consistent(d0) && ino == NextIno(d0.ibm) < MAX_INODES && Now() == d0.(ibm := d0.ibm[ino := true])
      modifies `bitmap, `freeBlocks, `hint, `store, `scratch, `scratch2, `scratch3, `inodeBitmap, `freeInodes, bcache, bcache.cache, bcache.table
      ensures Valid() && Consistent(Now())
      ensures ok <==> Admissible(d0, parent, name, dir) && Room(d0.st, Target(d0, parent, dir), d0.free)
      ensures Lost(Now()) == Lost(d0) + lost && lost !! Lost(d0) && (lost != {} <==> CreateCosts(d0, parent, name, dir))
      ensures if ok then Entered(d0, Now(), parent, name, dir, ino, at, st1) else Unentered(d0, Now())
      ensures Miscount() == old(Miscount())
    {
      hide Backed, DiskOk, Free, InodeAt, Kept, Abandoned, Reset, DirAdded, Leaked, TableRoots, FileBlocks, Room, Loses, NoBlocks, FreshInode, EmptyInode, Target;
      hide Admissible, Entered, Unentered, Lost, NextIno, Valid, Sane, CreateCosts;
      ok, at, lost, st1 := Link(ino, parent, name, dir, d0);
      ghost var own := FileBlocks(d0.st, InodeAt(d0.st, tblStart, ino).ptr);
      if ok {
        NowConsistent();
        EnteredBy(d0, Now(), parent, name, dir, ino, at, st1);
        CostIs(d0, parent, name, dir, own, {});
        lost := own;
      } else {
        Undo(ino, d0, st1, FreshInode(parent, dir), lost);
        UnenteredBy(d0, Now(), ino);
        CostIs(d0, parent, name, dir, own, lost);
        lost := own + lost;
      }
    }

    /** Stores the inode that was taken and adds its entry. */
    method Link(ino: nat, parent: u32, name: seq<byte>, dir: bool, ghost d0: Disk) returns (ok: bool, ghost at: nat, ghost lost: set<int>, ghost st1: Store)
      requires Valid() && 0 !in name && Consistent(d0) && ino == NextIno(d0.ibm) < MAX_INODES && Now() == d0.(ibm := d0.ibm[ino := true])
      modifies `bitmap, `freeBlocks, `hint, `store, `scratch, `scratch2, `scratch3, bcache, bcache.cache, bcache.table
      ensures Valid() && |store| == |d0.st| == |st1| && Layout(d0.st, tblStart, dataStart) && DiskOk(st1, d0.bm, tblStart, dataStart)
      ensures Layout(store, tblStart, dataStart) && Layout(st1, tblStart, dataStart) && |store| <= |bitmap|
      ensures Reset(d0.st, st1, d0.bm, tblStart, dataStart, ino, FreshInode(parent, dir))
      ensures ok <==> Admissible(d0, parent, name, dir) && Room(d0.st, Target(d0, parent, dir), d0.free)
      ensures ok ==> parent < MAX_INODES && DirAdded(st1, d0.bm, store, bitmap, tblStart, dataStart, parent, at, Named(ino, KindOf(dir), name))
      ensures ok ==> !Loses(d0.st, Target(d0, parent, dir), d0.free)
      ensures !ok ==> Abandoned(st1, d0.bm, store, bitmap, tblStart, dataStart, lost)
      ensures !ok ==> |lost| == if Admissible(d0, parent, name, dir) && Loses(d0.st, Target(d0, parent, dir), d0.free) then 1 else 0
      ensures var own := FileBlocks(d0.st, InodeAt(d0.st, tblStart, ino).ptr);
              own !! Lost(d0) && (own == {} <==> NoBlocks(InodeAt(d0.st, tblStart, ino).ptr))
    {
      hide Backed, FsInv, Free, InodeAt, Kept, Abandoned, Reset, DirAdded, Leaked, TableRoots, FileBlocks, Room, Loses, NoBlocks, FreshInode, Target, NextIno, Lost;
      StoreFresh(ino, parent, dir, d0);
      st1 := store;
      ok, at, lost := DirAdd(parent, name, ino, if dir then 2 else 1);
      if ok { RoomLosesNot(d0.st, Target(d0, parent, dir), d0.free); }
    }

    /** Gives the inode of a failed creation back. */
    method Undo(ino: nat, ghost d0: Disk, ghost st1: Store, ghost n: Inode, ghost lost: set<int>)
      requires Valid() && Consistent(d0) && tblStart == d0.tbl && dataStart == d0.ds && |store| == |d0.st| == |st1| && 0 < ino < MAX_INODES
      requires DiskOk(st1, d0.bm, tblStart, dataStart) && Reset(d0.st, st1, d0.bm, tblStart, dataStart, ino, n)
      requires Abandoned(st1, d0.bm, store, bitmap, tblStart, dataStart, lost)
      modifies `bitmap, `freeBlocks, `hint, `store, `scratch, `scratch2, `scratch3, `inodeBitmap, `freeInodes, bcache, bcache.cache, bcache.table
      ensures Valid() && |store| == |old(store)|
      ensures Consistent(Now()) && inodeBitmap == old(inodeBitmap)[ino := false]
      ensures Kept(d0.st, store, tblStart, {ino}) && InodeAt(store, tblStart, ino) == EmptyInode()
      ensures Lost(Now()) == Lost(d0) + FileBlocks(d0.st, InodeAt(d0.st, tblStart, ino).ptr) + lost && lost !! Lost(d0)
      ensures old(inodeBitmap)[ino] ==> Miscount() == old(Miscount())
    {
      hide Backed, DiskOk, Free, InodeAt, Kept, Abandoned, Reset, OnlyFile, Leaked, TableRoots, FileBlocks, FileIn;
      ghost var st2, bm2 := store, bitmap;
      FreeInode(ino);
      CreateUndone(d0.st, d0.bm, st1, st2, bm2, store, bitmap, tblStart, dataStart, ino, n, lost);
      NowConsistent();
    }

    /** Stores the inode that was just taken, without blocks; `d0` is the state before it was. */
    method StoreFresh(ino: nat, parent: u32, dir: bool, ghost d0: Disk)
      requires Valid() && Consistent(d0) && d0 == Now().(ibm := d0.ibm) && ino == NextIno(d0.ibm) < MAX_INODES
      modifies `scratch, `store, bcache, bcache.cache, bcache.table
      ensures Valid() && |store| == |d0.st| && Reset(d0.st, store, bitmap, tblStart, dataStart, ino, FreshInode(parent, dir))
      ensures parent < MAX_INODES ==>
                var n := Target(d0, parent, dir);
                && InodeAt(store, tblStart, parent) == n
                && Room(store, n, freeBlocks) == Room(d0.st, n, freeBlocks) && Loses(store, n, freeBlocks) == Loses(d0.st, n, freeBlocks)
      ensures var own := FileBlocks(d0.st, InodeAt(d0.st, tblStart, ino).ptr);
              own !! Lost(d0) && (own == {} <==> NoBlocks(InodeAt(d0.st, tblStart, ino).ptr))
    {
      hide Backed, FsInv, Free, InodeAt, PutInode, Reset, Leaked, TableRoots, FileBlocks, Room, Loses, NoBlocks, FileOk, Owned, Target, FreshInode;
      TableFile(store, bitmap, tblStart, dataStart, ino);
      NoFileBlocks(store, InodeAt(store, tblStart, ino).ptr);
      var ok := WriteInode(ino, FreshInode(parent, dir));
      FreshHasNone(parent, dir);
      ResetOp(d0.st, bitmap, tblStart, dataStart, ino, FreshInode(parent, dir), store);
      ResetLost(d0.st, store, bitmap, tblStart, dataStart, ino, FreshInode(parent, dir));
      TargetRoom(d0, store, ino, parent, dir);
    }

    /** The remaining claims about a successful creation. */
    lemma Created(st0: Store, bm0: Bits, st1: Store, ino: nat, parent: u32, dir: bool, at: nat, name: seq<byte>, ibm0: Bits)
      requires DiskOk(st0, bm0, tblStart, dataStart) && |st0| == |store| == |st1| && tblStart + 30 <= |store|
      requires 0 < ino < MAX_INODES && parent < MAX_INODES && Kept(st0, store, tblStart, {ino, parent as int})
      requires ino != parent ==> InodeAt(store, tblStart, ino) == FreshInode(parent, dir) && Linked(st0, store, tblStart, parent, at, Named(ino, KindOf(dir), name))
      requires ino == parent ==> InodeAt(st1, tblStart, ino) == FreshInode(parent, dir) && Linked(st1, store, tblStart, ino, at, Named(ino, KindOf(dir), name))
      requires |ibm0| == MAX_INODES && !ibm0[ino] && inodeBitmap == ibm0[ino := true]
      ensures ino != parent ==> FreshEntry(store, tblStart, ino, parent, dir, at, name)
      ensures ino != parent && (at < InodeAt(st0, tblStart, parent).size / 64 || InodeAt(st0, tblStart, parent).size / 64 + 1 < 0x400_0000) ==>
                NamesAdded(st0, store, tblStart, parent, at, name)
      ensures TidyTable(st0, tblStart, ibm0) ==> Tidy()
      ensures AllSolid(st0, tblStart) ==> AllSolid(store, tblStart)
    {
      hide DiskOk, InodeAt, Kept, EntryAdded, NamesAdded, AllSolid, FreshInode, FileOk, TidyTable, FreshEntry, KindOf;
      if ino != parent {
        FreshEntered(st0, store, tblStart, ino, parent, dir, at, name);
        TableFile(st0, bm0, tblStart, dataStart, parent);
        if at < InodeAt(st0, tblStart, parent).size / 64 || InodeAt(st0, tblStart, parent).size / 64 + 1 < 0x400_0000 {
          LinkedNames(st0, store, tblStart, parent, at, Named(ino, KindOf(dir), name));
        }
      }
      if TidyTable(st0, tblStart, ibm0) { CreateTidy(st0, store, tblStart, ino, parent, ibm0); }
      if AllSolid(st0, tblStart) { CreateSolid(st0, st1, store, tblStart, ino, parent, dir, at, Named(ino, KindOf(dir), name)); }
    }

    lemma NotCreated(st0: Store, ino: nat, ibm0: Bits)
      requires 0 < ino < MAX_INODES && Kept(st0, store, tblStart, {ino}) && InodeAt(store, tblStart, ino) == EmptyInode() && inodeBitmap == ibm0
      ensures TidyTable(st0, tblStart, ibm0) ==> Tidy()
      ensures tblStart + 30 <= |st0| == |store| && (AllSolid(st0, tblStart) ==> AllSolid(store, tblStart))
    {
      hide InodeAt, KeptOne, AllSolid, Unused;
      EmptyUnused();
      if TidyTable(st0, tblStart, ibm0) { TidyKept(st0, store, tblStart, ibm0, ibm0, {ino}); }
      SolidEmpty(store, tblStart, ino);
      if AllSolid(st0, tblStart) { AllSolidKept(st0, store, tblStart, {ino}); }
    }

    /** `limnfs_delete`: a file, or a directory that looks empty, by name. */
    method Delete(parent: nat, name: seq<byte>) returns (ok: bool, ghost child: int)
      requires Valid() && 0 !in name
      modifies `bitmap, `freeBlocks, `hint, `store, `scratch, `scratch2, `scratch3, `inodeBitmap, `freeInodes, bcache, bcache.cache, bcache.table
      ensures Valid() && |store| == |old(store)|
      ensures Consistent(old(Now())) && Consistent(Now()) && Lost(Now()) == Lost(old(Now()))
      ensures ok <==> Deletable(old(store), tblStart, parent, name)
      ensures !ok ==> store == old(store) && bitmap == old(bitmap) && inodeBitmap == old(inodeBitmap)
      ensures ok ==> parent < MAX_INODES && 0 < child < MAX_INODES
      ensures ok ==> inodeBitmap == old(inodeBitmap)[child := false] && InodeAt(store, tblStart, child) == EmptyInode()
      ensures ok ==> Kept(old(store), store, tblStart, {parent as int, child})
      ensures ok && parent != child ==>
                var p := InodeAt(old(store), tblStart, parent);
                var at := Find(old(store), p.ptr, p.size / 64, name, 0);
                && at < p.size / 64 && EntryAt(old(store), p.ptr, at).ino == child && Unlinked(old(store), store, tblStart, parent, at)
                && NamesRemoved(old(store), store, tblStart, parent, name)
      ensures ok && InodeAt(old(store), tblStart, child).kind == TYPE_DIR && SolidDir(old(store), tblStart, child) ==>
                var c := InodeAt(old(store), tblStart, child); NothingLive(old(store), c.ptr, c.size / 64)
      ensures old(Tidy()) ==> Tidy()
      ensures AllSolid(old(store), tblStart) ==> AllSolid(store, tblStart)
      ensures Miscount() == old(Miscount()) + if ok && !old(inodeBitmap)[child] then 1 else 0
    {
      hide Backed, DiskOk, Free, InodeAt, PutInode, Kept, KeptOne, OnlyFile, Leaked, TableRoots, Linked, EntryAt, OneEntry, Unlinked, FindNth, Find;
      hide Lives, Extent, NamesRemoved, AllSolid, TidyTable, SolidDir, NothingLive;
      child := -1;
      NowConsistent();
      var c := DirLookup(parent, name);
      if c < 0 { NowConsistent(); return false, -1; }
      var isInode, n := ReadInode(c);
      if !isInode { NowConsistent(); return false, -1; }
      if n.kind == TYPE_DIR {
        var found, e, out := DirIter(c, 0);
        if found { NowConsistent(); return false, -1; }
      }
      ghost var st0, bm0 := store, bitmap;
      ok := DirRemove(parent, name);
      ghost var st1 := store;
      FreeInode(c);
      ghost var p := InodeAt(st0, tblStart, parent);
      ghost var at := Find(st0, p.ptr, p.size / 64, name, 0);
      DeleteDone(st0, bm0, st1, store, bitmap, tblStart, dataStart, parent, c, at, old(inodeBitmap), inodeBitmap);
      child := c;
      Deleted(st0, parent, c, at, name);
      if n.kind == TYPE_DIR && SolidDir(st0, tblStart, c) { EmptySolid(st0, tblStart, c); }
      NowConsistent();
    }

    lemma Deleted(st0: Store, parent: nat, child: nat, at: nat, name: seq<byte>)
      requires parent < MAX_INODES && child < MAX_INODES && Kept(st0, store, tblStart, {parent as int, child as int})
      requires InodeAt(store, tblStart, child) == EmptyInode() && (parent != child ==> Unlinked(st0, store, tblStart, parent, at))
      requires tblStart + 30 <= |st0| == |store|
      requires var p := InodeAt(st0, tblStart, parent); at == Find(st0, p.ptr, p.size / 64, name, 0) < p.size / 64
      ensures parent != child ==> NamesRemoved(st0, store, tblStart, parent, name)
      ensures AllSolid(st0, tblStart) ==> AllSolid(store, tblStart)
    {
      hide InodeAt, Kept, Unlinked, Find, NamesRemoved, AllSolid;
      if parent != child { UnlinkedNames(st0, store, tblStart, parent, at, name); }
      if AllSolid(st0, tblStart) { DeleteSolid(st0, store, tblStart, parent, child, at); }
    }

    // ----- Format -----

    /** `limnfs_format` on a device of `total` blocks. */
    method Format(blocks: u32)
      requires Backed() && |store| == blocks && blocks > DataStart(blocks)
      modifies this, bcache, bcache.cache, bcache.table
      ensures Backed() && total == blocks && dataStart == DataStart(blocks) && tblStart == TableStart(blocks)
      ensures Reserves(blocks, |bitmap|, tblStart, dataStart)
      ensures DiskOk(store, bitmap, tblStart, dataStart) && Tidy() && freeBlocks == total - dataStart
      ensures hint == old(hint) && (Valid() <==> hint <= blocks)
      ensures forall i :: 0 <= i < MAX_INODES ==>
                InodeAt(store, tblStart, i) == (if i == 0 then EmptyInode().(kind := TYPE_DIR, mode := 7) else EmptyInode())
      ensures forall i :: 0 <= i < MAX_INODES ==> (inodeBitmap[i] <==> i == 0)
      ensures Miscount() == 0
    {
      LayoutOf(blocks);
      hide Backed, FsInv, InodeAt, Free, BitmapBytes, TableStart, DataStart, EmptyInode, Reserves, ClearBits;
      var bytes := BitmapBytes(blocks);
      total, tblStart := blocks, 1 + bytes / BLOCK_SIZE + 1;
      dataStart := tblStart + 32;
      freeBlocks, freeInodes := total - dataStart, MAX_INODES - 1;
      bitmap := seq(8 * bytes, _ => false);
      ReservesBy(blocks);
      MarkReserved();
      inodeBitmap := seq(MAX_INODES, _ => false);
      NoneTaken(inodeBitmap);
      BitTaken(inodeBitmap, 0);
      inodeBitmap := inodeBitmap[0 := true];
      FreeAll(bitmap, dataStart, total);
      WriteTable();
      BackedSize();
      EmptyUnused();
    }

    /** Writes an inode table with nothing but an empty root directory. */
    method WriteTable()
      requires Backed() && Layout(store, tblStart, dataStart) && tblStart + 32 <= dataStart
      requires |store| <= |bitmap| && forall x :: 0 <= x < |bitmap| ==> (bitmap[x] <==> x < dataStart)
      modifies `store, `scratch, bcache, bcache.cache, bcache.table
      ensures Backed() && |store| == |old(store)| && DiskOk(store, bitmap, tblStart, dataStart)
      ensures forall i :: 0 <= i < MAX_INODES ==>
                InodeAt(store, tblStart, i) == (if i == 0 then EmptyInode().(kind := TYPE_DIR, mode := 7) else EmptyInode())
    {
      hide Backed, Sane, FsInv, InodeAt, PutInode, EmptyInode;
      EmptyHasNone();
      ClearTable();
      FreshTable(store, tblStart, bitmap, dataStart);
      ghost var st1 := store;
      var ok := WriteInode(0, EmptyInode().(kind := TYPE_DIR, mode := 7));
      RootWritten(st1, bitmap, tblStart, dataStart, store, EmptyInode().(kind := TYPE_DIR, mode := 7));
    }

    /** Marks the blocks before the data area in a clear bitmap. */
    method MarkReserved()
      requires dataStart <= |bitmap| && forall x :: 0 <= x < |bitmap| ==> !bitmap[x]
      modifies `bitmap
      ensures |bitmap| == |old(bitmap)| && forall x :: 0 <= x < |bitmap| ==> (bitmap[x] <==> x < dataStart)
    {
      var b := 0;
      while b < dataStart
        invariant b <= dataStart && |bitmap| == |old(bitmap)|
        invariant forall x :: 0 <= x < |bitmap| ==> (bitmap[x] <==> x < b)
      {
        bitmap := bitmap[b := true];
        b := b + 1;
      }
    }

    /** Zeroes the inode table. */
    method ClearTable()
      requires Backed() && tblStart + 32 <= |store|
      modifies `store, `scratch, bcache, bcache.cache, bcache.table
      ensures Backed() && |store| == |old(store)| && forall x :: tblStart <= x < tblStart + 32 ==> store[x] == ZERO_BLOCK
    {
      hide Backed, Sane;
      scratch := ZERO_BLOCK;
      var b := 0;
      while b < 32
        invariant b <= 32 && |store| == |old(store)| && Backed() && scratch == ZERO_BLOCK
        invariant forall x :: tblStart <= x < tblStart + b ==> store[x] == ZERO_BLOCK
      {
        Put(tblStart + b, scratch);
        b := b + 1;
      }
    }

    // ----- Whole runs -----

    /** One call, with exactly the effect on lost blocks and on directories that the state before it decides. */
    method Step(op: Op)
      requires Valid() && op.Ok() && DataStart(total) < total
      modifies this, bcache, bcache.cache, bcache.table
      ensures Valid() && total == old(total) && StepOf(old(Now()), op, Now())
      ensures old(Miscount()) >= 0 ==> Miscount() >= 0
      ensures old(Miscount()) == 0 && !op.OpDelete? ==> Miscount() == 0
    {
      hide Backed, DiskOk, Free, InodeAt, Kept, KeptOne, Leaked, TableRoots, Table, Untouched, Linked, EntryAt, Unlinked, FindNth, Truncated, Wrote, TidyTable, Find;
      hide NamesAdded, NamesRemoved, AllSolid, CreateCosts, Room, Admissible, Target, Deletable, SolidDir, OnlyFile;
      ghost var d0 := Now();
      NowConsistent();
      match op
      case OpFormat =>
        Format(total);
        FreshNothingLeaked(store, bitmap, tblStart, dataStart, freeBlocks);
        FreshSolid(store, tblStart);
        NowConsistent();
      case OpCreate(parent, name, dir) =>
        var ino;
        ghost var at, lost;
        ino, at, lost := Create(parent, name, dir);
      case OpDelete(parent, name) =>
        var ok, child := Delete(parent, name);
      case OpTruncate(ino, size) =>
        var ok := Truncate(ino, size);
        NowConsistent();
        if ok { OnlyStep(d0, ino); }
      case OpWrite(ino, off, buf) =>
        var written := WriteData(ino, off, buf);
        NowConsistent();
        if written != -1 { OnlyStep(d0, ino); }
    }

    /** A change of one inode that keeps its type loses nothing, and concerns no directory unless it is one. */
    lemma OnlyStep(d0: Disk, ino: nat)
      requires Valid() && Consistent(d0) && tblStart == d0.tbl && dataStart == d0.ds && ino < MAX_INODES
      requires |d0.st| == |store| && OnlyFile(d0.st, d0.bm, store, bitmap, tblStart, dataStart, ino, InodeAt(store, tblStart, ino))
      requires InodeAt(store, tblStart, ino).kind == InodeAt(d0.st, d0.tbl, ino).kind
      ensures Consistent(Now()) && Lost(Now()) == Lost(d0)
      ensures AllSolid(d0.st, d0.tbl) && InodeAt(d0.st, d0.tbl, ino).kind != TYPE_DIR ==> AllSolid(store, tblStart)
    {
      hide Backed, FsInv, Free, InodeAt, Leaked, Untouched, SolidDir;
      NowConsistent();
      KeptOnly(d0.st, d0.bm, store, bitmap, tblStart, dataStart, ino, InodeAt(store, tblStart, ino));
      if AllSolid(d0.st, d0.tbl) && InodeAt(d0.st, d0.tbl, ino).kind != TYPE_DIR { AllSolidKept(d0.st, store, tblStart, {ino}); }
    }

    /**
     Any sequence of calls keeps the disk consistent; blocks are lost exactly in the calls that `Costs`
     names, and directories stay without holes unless one is truncated or written from outside.
     */
    method Run(ops: seq<Op>) returns (ghost tr: seq<Disk>)
      requires Valid() && (forall i :: 0 <= i < |ops| ==> ops[i].Ok()) && DataStart(total) < total
      modifies this, bcache, bcache.cache, bcache.table
      ensures Valid() && RunOf(ops, tr) && tr[0] == old(Now()) && tr[|ops|] == Now()
      ensures Consistent(tr[0]) && Consistent(tr[|ops|])
      ensures (forall i :: 0 <= i < |ops| ==> Consistent(tr[i]) && !Costs(tr[i], ops[i])) ==> Lost(Now()) <= Lost(old(Now()))
      ensures AllSolid(old(store), old(tblStart)) && (forall i :: 0 <= i < |ops| ==> Consistent(tr[i]) && !Touches(tr[i], ops[i])) ==>
                AllSolid(store, tblStart)
      ensures old(Miscount()) >= 0 ==> Miscount() >= 0
      ensures old(Miscount()) == 0 && (forall i :: 0 <= i < |ops| ==> !ops[i].OpDelete?) ==> Miscount() == 0
    {
      hide Backed, Sane, DiskOk, StepOf, Costs, Touches, AllSolid, Lost, Consistent;
      NowConsistent();
      tr := [Now()];
      var i := 0;
      while i < |ops|
        invariant i <= |ops| && Valid() && total == old(total)
        invariant |tr| == i + 1 && tr[0] == old(Now()) && tr[i] == Now()
        invariant forall k, m :: 0 <= k < i && m == k + 1 ==> StepOf(tr[k], ops[k], tr[m])
        invariant old(Miscount()) >= 0 ==> Miscount() >= 0
        invariant old(Miscount()) == 0 && (forall k :: 0 <= k < i ==> !ops[k].OpDelete?) ==> Miscount() == 0
      {
        Step(ops[i]);
        tr := tr + [Now()];
        i := i + 1;
      }
      RunLoses(ops, tr, |ops|);
    }
  }

  datatype Op =
    | OpFormat
    | OpCreate(parent: u32, name: seq<byte>, dir: bool)
    | OpDelete(dirIno: nat, entry: seq<byte>)
    | OpTruncate(ino: nat, size: u32)
    | OpWrite(file: nat, off: nat, buf: seq<byte>)
  {
    predicate Ok() {
      match this
      case OpCreate(_, n, _) => 0 !in n
      case OpDelete(_, n) => 0 !in n
      case OpWrite(_, o, b) => o + |b| <= MAX_POS
      case _ => true
    }
  }
}
