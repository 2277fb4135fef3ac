/**
 What one operation on one file may do to the disk and to the block bitmap, and why doing just that
 keeps the whole file system consistent.
 */
module Accounts {
  import opened BlockTree
  import opened FileTree

  type Bits = seq<bool>

  /** The clear bits of the data area. */
  function Free(bm: Bits, lo: nat, hi: nat): set<int>
    requires hi <= |bm|
  {
    set b | lo <= b < hi && !bm[b]
  }

  lemma FreeTake(bm: Bits, lo: nat, hi: nat, b: nat)
    requires hi <= |bm| && lo <= b < hi && !bm[b]
    ensures |Free(bm[b := true], lo, hi)| == |Free(bm, lo, hi)| - 1
  {
    assert Free(bm[b := true], lo, hi) == Free(bm, lo, hi) - {b};
  }

  lemma FreeGive(bm: Bits, lo: nat, hi: nat, b: nat)
    requires hi <= |bm| && lo <= b < hi && bm[b]
    ensures |Free(bm[b := false], lo, hi)| == |Free(bm, lo, hi)| + 1
  {
    assert Free(bm[b := false], lo, hi) == Free(bm, lo, hi) + {b};
  }

  // ----- One file -----

  /**
   From (`st0`, `ptr0`, `bm0`) to (`st`, `ptr`, `bm`) the file gave back exactly the blocks it no
   longer uses, took only blocks that were free, and wrote only to its own or to free blocks.
   The blocks in `pend` are taken but not yet part of the file.
   */
  ghost predicate Change(st0: Store, ptr0: Roots, bm0: Bits, st: Store, ptr: Roots, bm: Bits, pend: set<nat>) {
    && |st| == |st0| <= |bm| == |bm0|
    && FileOk(st, ptr)
    && (forall b :: FileIn(st, ptr, 0, b) ==> 0 < b < |st| && (FileIn(st0, ptr0, 0, b) || !bm0[b]))
    && (forall b :: 0 <= b < |bm| ==>
          (bm[b] <==> (bm0[b] && !FileIn(st0, ptr0, 0, b)) || FileIn(st, ptr, 0, b) || b in pend))
    && (forall b :: b in pend ==> 0 < b < |st| && !bm0[b])
    && (forall b :: 0 <= b < |st| && st[b] != st0[b] ==> !bm0[b] || FileIn(st0, ptr0, 0, b))
  }

  /** Every block of the file lies in the data area and is marked. */
  ghost predicate Owned(st: Store, ptr: Roots, bm: Bits, ds: nat) {
    |st| <= |bm| && forall b :: FileIn(st, ptr, 0, b) ==> ds <= b < |st| && bm[b]
  }

  /** Data block `b`, if there is one, has the same contents in both stores. */
  ghost predicate SameData(st0: Store, st: Store, b: nat) {
    0 < b < |st0| <= |st| ==> st[b] == st0[b]
  }

  /** Every logical block is where it was, with the contents it had. */
  ghost predicate SameMap(st0: Store, ptr0: Roots, st: Store, ptr: Roots) {
    forall n :: 0 <= n < MAX_LOGICAL ==>
      Lookup(st, ptr, n) == Lookup(st0, ptr0, n) && SameData(st0, st, Lookup(st0, ptr0, n))
  }

  /** A change that only adds pointer blocks: every logical block stays where it was. */
  ghost predicate Grow(st0: Store, ptr0: Roots, bm0: Bits, st: Store, ptr: Roots, bm: Bits, pend: set<nat>) {
    && Change(st0, ptr0, bm0, st, ptr, bm, pend)
    && Owned(st0, ptr0, bm0, 1)
    && (forall b :: FileIn(st0, ptr0, 0, b) ==> FileIn(st, ptr, 0, b))
    && (forall b :: b in pend ==> !FileIn(st, ptr, 0, b))
    && SameMap(st0, ptr0, st, ptr)
  }

  /** Marked blocks stay marked, and outside `q` they keep their contents: only fresh blocks were written. */
  ghost predicate Adds(st0: Store, bm0: Bits, st: Store, bm: Bits, q: set<nat>) {
    && |st| == |st0| <= |bm| == |bm0|
    && forall b :: 0 <= b < |bm| && bm0[b] ==> bm[b] && (b < |st| && b !in q ==> st[b] == st0[b])
  }

  /** Taking a free block `v` and clearing it does not disturb the file. */
  lemma TakeBlock(st0: Store, ptr0: Roots, bm0: Bits, st: Store, ptr: Roots, bm: Bits, pend: set<nat>, v: nat)
    requires Grow(st0, ptr0, bm0, st, ptr, bm, pend) && 0 < v < |st| && !bm[v]
    ensures Grow(st0, ptr0, bm0, st[v := ZERO_BLOCK], ptr, bm[v := true], pend + {v})
    ensures SameFile(st, st[v := ZERO_BLOCK], ptr)
  {
    hide Tree, In;
    var st' := st[v := ZERO_BLOCK];
    forall b | 0 <= b < |st| && FileIn(st, ptr, 1, b) ensures st'[b] == st[b] {
      FileInAll(st, ptr, 1, b);
    }
    FileFrame(st, st', ptr);
    forall n | 0 <= n < MAX_LOGICAL ensures Lookup(st', ptr, n) == Lookup(st, ptr, n) && Lookup(st, ptr, n) != v {
      assert Proper(SlotOf(n));
      if Lookup(st, ptr, n) != 0 { AtIn(st, ptr, SlotOf(n)); }
    }
  }

  /** The pending block `v` joins the file at slot `at`. */
  lemma JoinBlock(st0: Store, ptr0: Roots, bm0: Bits, st: Store, ptr: Roots, bm: Bits, pend: set<nat>,
                  st': Store, ptr': Roots, at: Slot, v: nat)
    requires Grow(st0, ptr0, bm0, st, ptr, bm, pend) && v in pend
    requires Joined(st, ptr, st', ptr', at, v) && |st'| == |st|
    requires forall b :: 0 <= b < |st| && st'[b] != st[b] ==> FileIn(st, ptr, 0, b)
    requires forall n :: 0 <= n < MAX_LOGICAL ==> SameData(st, st', Lookup(st, ptr, n))
    ensures Change(st0, ptr0, bm0, st', ptr', bm, pend - {v})
    ensures |at.path| < Level(at.root) ==> Grow(st0, ptr0, bm0, st', ptr', bm, pend - {v})
    ensures forall n :: 0 <= n < MAX_LOGICAL ==>
              && Lookup(st', ptr', n) == (if SlotOf(n) == at then v else Lookup(st0, ptr0, n))
              && SameData(st0, st', Lookup(st0, ptr0, n))
  {
    hide Tree, In;
    forall n | 0 <= n < MAX_LOGICAL
      ensures Lookup(st', ptr', n) == if SlotOf(n) == at then v else Lookup(st0, ptr0, n)
      ensures SameData(st0, st', Lookup(st0, ptr0, n))
    {
      assert Proper(SlotOf(n));
      assert Lookup(st, ptr, n) == Lookup(st0, ptr0, n);
    }
  }

  /** A write to a pointer block touches no data. */
  lemma PointerWrite(st: Store, ptr: Roots, st': Store, s: Slot)
    requires FileOk(st, ptr) && Proper(s) && |s.path| < Level(s.root) && At(st, ptr, s) != 0
    requires |st'| == |st| && forall b :: 0 <= b < |st| && st'[b] != st[b] ==> b == At(st, ptr, s)
    ensures forall n :: 0 <= n < MAX_LOGICAL ==> SameData(st, st', Lookup(st, ptr, n))
    ensures forall b :: 0 <= b < |st| && st'[b] != st[b] ==> FileIn(st, ptr, 0, b)
  {
    hide Tree, In, Walk;
    AtIn(st, ptr, s);
    forall n | 0 <= n < MAX_LOGICAL ensures SameData(st, st', Lookup(st, ptr, n)) {
      assert |SlotOf(n).path| == Level(SlotOf(n).root);
      AtInjective(st, ptr, s, SlotOf(n));
    }
  }

  /** A fresh cleared block becomes the root pointer `r`. */
  lemma GrowRoot(st0: Store, ptr0: Roots, bm0: Bits, st: Store, ptr: Roots, bm: Bits, pend: set<nat>, r: nat, v: u32)
    requires Grow(st0, ptr0, bm0, st, ptr, bm, pend) && 0 < v < |st| && !bm[v]
    requires DIRECT <= r < 13 && ptr[r] == 0
    ensures Grow(st0, ptr0, bm0, st[v := ZERO_BLOCK], ptr[r := v], bm[v := true], pend)
  {
    hide Tree, In, Walk, FileIn;
    var st1 := st[v := ZERO_BLOCK];
    TakeBlock(st0, ptr0, bm0, st, ptr, bm, pend, v);
    JoinRoot(st1, ptr, r, v);
    JoinBlock(st0, ptr0, bm0, st1, ptr, bm[v := true], pend + {v}, st1, ptr[r := v], Slot(r, []), v);
    assert pend + {v} - {v} == pend;
  }

  /** A fresh cleared block becomes entry `i` of the pointer block at `path`. */
  lemma GrowChild(st0: Store, ptr0: Roots, bm0: Bits, st: Store, ptr: Roots, bm: Bits, pend: set<nat>,
                  r: nat, path: seq<nat>, i: nat, v: u32, q: nat, st2: Store)
    requires Grow(st0, ptr0, bm0, st, ptr, bm, pend) && 0 < v < |st| && !bm[v]
    requires r < 13 && |path| + 1 < Level(r) && i < PTRS
    requires 0 < q < |st| && q == At(st, ptr, Slot(r, path)) && st[q][i] == 0
    requires st2 == st[v := ZERO_BLOCK][q := st[v := ZERO_BLOCK][q][i := v]]
    ensures Grow(st0, ptr0, bm0, st2, ptr, bm[v := true], pend)
    ensures At(st2, ptr, Slot(r, path + [i])) == v
  {
    hide Tree, In, Walk, FileIn, SameMap, Owned;
    var st1 := st[v := ZERO_BLOCK];
    TakeBlock(st0, ptr0, bm0, st, ptr, bm, pend, v);
    AtIn(st1, ptr, Slot(r, path));
    JoinAt(st1, st2, ptr, r, path, i, v, q);
    PointerWrite(st1, ptr, st2, Slot(r, path));
    JoinBlock(st0, ptr0, bm0, st1, ptr, bm[v := true], pend + {v}, st2, ptr, Slot(r, path + [i]), v);
    assert pend + {v} - {v} == pend;
    assert Proper(Slot(r, path + [i]));
  }

  lemma GrowMap(st0: Store, ptr0: Roots, bm0: Bits, st: Store, ptr: Roots, bm: Bits, pend: set<nat>)
    requires Grow(st0, ptr0, bm0, st, ptr, bm, pend)
    ensures SameMap(st0, ptr0, st, ptr) && FileOk(st, ptr) && Change(st0, ptr0, bm0, st, ptr, bm, pend)
  {
  }

  lemma GrowMarks(st0: Store, ptr0: Roots, bm0: Bits, st: Store, ptr: Roots, bm: Bits, pend: set<nat>)
    requires Grow(st0, ptr0, bm0, st, ptr, bm, pend)
    ensures |st| == |st0| <= |bm| == |bm0| && forall b :: b in pend ==> 0 < b < |st| && !bm0[b] && bm[b]
  {
    hide FileIn, FileOk, SameMap, Owned;
  }

  lemma RootInRange(st: Store, ptr: Roots, r: nat)
    requires FileOk(st, ptr) && r < 13
    ensures ptr[r] == 0 || ptr[r] < |st|
  {
    PointerInRange(st, ptr, r, []);
  }

  lemma GrowOk(st0: Store, ptr0: Roots, bm0: Bits, st: Store, ptr: Roots, bm: Bits, pend: set<nat>, r: nat)
    requires Grow(st0, ptr0, bm0, st, ptr, bm, pend) && r < 13 && |st| > 0
    ensures ptr[r] < |st|
  {
    hide FileOk, SameMap, Owned;
    RootInRange(st, ptr, r);
  }

  lemma GrowEntry(st0: Store, ptr0: Roots, bm0: Bits, st: Store, ptr: Roots, bm: Bits, pend: set<nat>, r: nat, i: nat)
    requires Grow(st0, ptr0, bm0, st, ptr, bm, pend) && r < 13 && Level(r) > 0 && i < PTRS && 0 < ptr[r] < |st|
    ensures st[ptr[r]][i] < |st|
  {
    hide FileOk, SameMap, Owned;
    PointerInRange(st, ptr, r, [i]);
    WalkOne(st, ptr[r], i);
  }

  /** A pointer block of the file is marked. */
  lemma MarkedIn(st0: Store, ptr0: Roots, bm0: Bits, st: Store, ptr: Roots, bm: Bits, pend: set<nat>, s: Slot)
    requires Grow(st0, ptr0, bm0, st, ptr, bm, pend) && Proper(s) && At(st, ptr, s) != 0
    ensures At(st, ptr, s) < |bm| && bm[At(st, ptr, s)]
  {
    hide FileOk, SameMap, Owned, FileIn, At;
    AtIn(st, ptr, s);
  }

  lemma MissingSame(st: Store, st': Store, ptr: Roots, n: nat)
    requires SameFile(st, st', ptr) && n < MAX_LOGICAL
    ensures Missing(st', ptr, n) == Missing(st, ptr, n) && Lookup(st', ptr, n) == Lookup(st, ptr, n)
  {
    hide FileOk, FileIn, At;
    GapsSame(st, st', ptr, SlotOf(n).root, SlotOf(n).path, |SlotOf(n).path|);
    assert Proper(SlotOf(n));
  }

  /** Logical block `n` is the only one that moved, from nowhere to block `v`. */
  ghost predicate Placed(st0: Store, ptr0: Roots, st: Store, ptr: Roots, n: nat, v: nat) {
    forall m :: 0 <= m < MAX_LOGICAL ==>
      && Lookup(st, ptr, m) == (if m == n then v else Lookup(st0, ptr0, m))
      && SameData(st0, st, Lookup(st0, ptr0, m))
  }

  /** The pending block `v` becomes the data block of logical block `n`. */
  lemma GrowLeaf(st0: Store, ptr0: Roots, bm0: Bits, st: Store, ptr: Roots, bm: Bits,
                 n: nat, v: u32, path: seq<nat>, i: nat, q: nat, st': Store)
    requires Grow(st0, ptr0, bm0, st, ptr, bm, {v}) && DIRECT <= n < MAX_LOGICAL
    requires 0 < q < |st| && SlotOf(n).path == path + [i] && i < PTRS && st[q][i] == 0
    requires q == At(st, ptr, Slot(SlotOf(n).root, path))
    requires st' == st[q := st[q][i := v]]
    ensures Change(st0, ptr0, bm0, st', ptr, bm, {}) && Placed(st0, ptr0, st', ptr, n, v) && st'[v] == st[v]
  {
    hide Tree, In, Walk, FileIn, SameMap, Owned;
    var r := SlotOf(n).root;
    AtIn(st, ptr, Slot(r, path));
    JoinAt(st, st', ptr, r, path, i, v, q);
    PointerWrite(st, ptr, st', Slot(r, path));
    JoinBlock(st0, ptr0, bm0, st, ptr, bm, {v}, st', ptr, SlotOf(n), v);
    assert {v} - {v} == {};
    forall m | 0 <= m < MAX_LOGICAL && SlotOf(m) == SlotOf(n) ensures m == n { SlotInjective(m, n); }
  }

  /** The last pointer on the way to an unmapped logical block is empty. */
  lemma EmptySlot(st0: Store, ptr0: Roots, st: Store, ptr: Roots, n: nat, path: seq<nat>, i: nat, q: nat)
    requires SameMap(st0, ptr0, st, ptr) && FileOk(st, ptr) && n < MAX_LOGICAL && Lookup(st0, ptr0, n) == 0
    requires SlotOf(n).path == path + [i] && q != 0 && q == At(st, ptr, Slot(SlotOf(n).root, path))
    ensures 0 < q < |st| && i < PTRS && st[q][i] == 0
  {
    hide Tree, In, FileOk, FileIn;
    AtIn(st, ptr, Slot(SlotOf(n).root, path));
    assert SlotOf(n).path[|path|] == i;
    WalkStep(st, ptr[SlotOf(n).root], path, i);
  }

  lemma DirectSlot(st: Store, ptr: Roots, n: nat)
    requires n < DIRECT
    ensures Lookup(st, ptr, n) == ptr[n]
  {
  }

  lemma GrowNone(st: Store, ptr: Roots, bm: Bits, ds: nat)
    requires FileOk(st, ptr) && Owned(st, ptr, bm, ds) && ds > 0
    ensures Grow(st, ptr, bm, st, ptr, bm, {})
  {
    hide Tree, In, FileOk;
  }

  /** The same for a direct pointer. */
  lemma GrowDirect(st0: Store, ptr0: Roots, bm0: Bits, st: Store, ptr: Roots, bm: Bits, n: nat, v: u32)
    requires Grow(st0, ptr0, bm0, st, ptr, bm, {v}) && n < DIRECT && ptr[n] == 0
    ensures Change(st0, ptr0, bm0, st, ptr[n := v], bm, {}) && Placed(st0, ptr0, st, ptr[n := v], n, v)
  {
    hide Tree, In, Walk, FileIn, SameMap, Owned;
    JoinRoot(st, ptr, n, v);
    JoinBlock(st0, ptr0, bm0, st, ptr, bm, {v}, st, ptr[n := v], SlotOf(n), v);
    assert {v} - {v} == {};
    forall m | 0 <= m < MAX_LOGICAL && SlotOf(m) == SlotOf(n) ensures m == n { SlotInjective(m, n); }
  }

  /** The pending block `v` is given back. */
  lemma DropBlock(st0: Store, ptr0: Roots, bm0: Bits, st: Store, ptr: Roots, bm: Bits, pend: set<nat>, v: nat)
    requires Grow(st0, ptr0, bm0, st, ptr, bm, pend) && v in pend
    ensures Grow(st0, ptr0, bm0, st, ptr, bm[v := false], pend - {v})
  {
  }

  // ----- The whole file system -----

  ghost predicate FsInv(st: Store, tbl: seq<Roots>, bm: Bits, ds: nat) {
    && FsOk(st, tbl)
    && 0 < ds <= |st| <= |bm|
    && (forall i :: 0 <= i < |tbl| ==> Owned(st, tbl[i], bm, ds))
    && (forall b :: 0 <= b < ds ==> bm[b])
  }

  /** Block `b` is reachable from some inode. */
  ghost predicate Reachable(st: Store, tbl: seq<Roots>, b: int) {
    exists i :: 0 <= i < |tbl| && FileIn(st, tbl[i], 0, b)
  }

  /** Taken blocks that no inode reaches. */
  ghost function Leaked(st: Store, tbl: seq<Roots>, bm: Bits, ds: nat): set<int>
    requires |st| <= |bm|
  {
    set b | ds <= b < |st| && bm[b] && !Reachable(st, tbl, b)
  }

  /** Neither the map nor the contents of the file changed. */
  ghost predicate Untouched(st: Store, st': Store, ptr: Roots) {
    |st| == |st'| && SameFile(st, st', ptr) && forall b :: 0 <= b < |st| && FileIn(st, ptr, 0, b) ==> st'[b] == st[b]
  }

  /** A legal change of one file is a legal step of the file system. */
  lemma Commit(st0: Store, tbl: seq<Roots>, bm0: Bits, ds: nat, i: nat, st: Store, ptr: Roots, bm: Bits)
    requires FsInv(st0, tbl, bm0, ds) && i < |tbl| && Change(st0, tbl[i], bm0, st, ptr, bm, {})
    ensures FsInv(st, tbl[i := ptr], bm, ds)
    ensures Leaked(st, tbl[i := ptr], bm, ds) == Leaked(st0, tbl, bm0, ds)
    ensures forall j :: 0 <= j < |tbl| && j != i ==> Untouched(st0, st, tbl[j])
    ensures forall b :: 0 <= b < ds ==> st[b] == st0[b]
  {
    assert Owned(st0, tbl[i], bm0, ds);
    var extra := set b | 0 <= b < |st| && !bm0[b];
    ReplaceFile(st0, st, tbl, i, ptr, extra);
    var tbl' := tbl[i := ptr];
    assert forall j :: 0 <= j < |tbl| && j != i ==> tbl'[j] == tbl[j];
    forall b | ds <= b < |st|
      ensures (bm[b] && !Reachable(st, tbl', b)) <==> (bm0[b] && !Reachable(st0, tbl, b))
    {
      assert tbl'[i] == ptr;
      if j :| 0 <= j < |tbl| && j != i && FileIn(st0, tbl[j], 0, b) {
        assert FileIn(st, tbl'[j], 0, b);
      } else if FileIn(st, ptr, 0, b) {
        assert Reachable(st, tbl', b);
      }
    }
  }

  /** Writes to the reserved area disturb no file. */
  lemma ReservedWrite(st: Store, tbl: seq<Roots>, bm: Bits, ds: nat, st': Store)
    requires FsInv(st, tbl, bm, ds) && |st'| == |st|
    requires forall b :: ds <= b < |st| ==> st'[b] == st[b]
    ensures FsInv(st', tbl, bm, ds) && Leaked(st', tbl, bm, ds) == Leaked(st, tbl, bm, ds)
    ensures forall j :: 0 <= j < |tbl| ==> Untouched(st, st', tbl[j])
  {
    forall j | 0 <= j < |tbl| ensures Untouched(st, st', tbl[j]) {
      forall b | 0 <= b < |st| && FileIn(st, tbl[j], 1, b) ensures st'[b] == st[b] {
        FileInAll(st, tbl[j], 1, b);
        assert Owned(st, tbl[j], bm, ds);
      }
      FileFrame(st, st', tbl[j]);
    }
    assert forall b :: Reachable(st', tbl, b) <==> Reachable(st, tbl, b);
  }
}
