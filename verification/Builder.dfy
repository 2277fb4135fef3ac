/**
 The host-side image builder (`mklimnfs.py`) lays a file out front to back: data blocks first, then the
 pointer blocks in the order its loops reach them.  The kernel's `get_file_block` must read that back.
 */
module Builder {
  import opened BlockTree
  import opened FileTree
  import opened Accounts
  import opened Trim
  import opened Shrink
  import opened FileData
  import opened ReadPath

  function Min(a: nat, b: nat): nat { if a < b then a else b }

  /** `x` is one of the data blocks for the span at `base`, or lies in `[lo, hi)`. */
  predicate Place(first: nat, base: nat, n: nat, span: nat, lo: nat, hi: nat, x: int) {
    first + base <= x < first + Min(n, base + span) || lo <= x < hi
  }

  /**
   The tree of `p` holds the data blocks `first + base ..` of a file of `n` blocks, and its pointer
   blocks lie in `[lo, hi)`.
   */
  ghost predicate Built(st: Store, p: nat, k: nat, first: nat, base: nat, n: nat, lo: nat, hi: nat) {
    && Tree(st, p, k)
    && (forall b :: In(st, p, k, 0, b) ==> Place(first, base, n, Span(k), lo, hi, b))
    && (forall w: seq<nat> :: PathOk(w, k) ==>
          Walk(st, p, w) == if base + Off(w) < n then first + base + Off(w) else 0)
  }

  /** Writing above the tree does not change it. */
  lemma BuiltFrame(st: Store, st': Store, p: nat, k: nat, first: nat, base: nat, n: nat, lo: nat, hi: nat)
    requires Built(st, p, k, first, base, n, lo, hi) && |st| == |st'| && first + n <= hi
    requires forall b :: 0 <= b < |st| && st'[b] != st[b] ==> b >= hi
    ensures Built(st', p, k, first, base, n, lo, hi)
  {
    hide Tree;
    forall b | 0 <= b < |st| && In(st, p, k, 1, b) ensures st'[b] == st[b] {
      InBounds(st, p, k, 1, b);
    }
    Frame(st, st', p, k);
    hide In;
    forall w: seq<nat> | PathOk(w, k) ensures Walk(st', p, w) == Walk(st, p, w) {
      FrameWalk(st, st', p, k, w);
    }
  }

  /** A pointer block of level 1 filled with the next `count` data blocks. */
  function LeafBlock(first: nat, base: nat, n: nat): Block
    requires base <= n && first + n < 0x1_0000_0000
  {
    seq(1024, i requires 0 <= i < 1024 => if base + i < n then first + base + i else 0)
  }

  lemma BuiltLeaf(st: Store, l: nat, first: nat, base: nat, n: nat)
    requires 0 < first && base < n && first + n <= l < |st| && first + n < 0x1_0000_0000
    requires st[l] == LeafBlock(first, base, n)
    ensures Built(st, l, 1, first, base, n, l, l + 1)
  {
    LeafTree(st, l);
    hide Tree;
    assert Span(1) == PTRS;
    forall b | In(st, l, 1, 0, b) ensures Place(first, base, n, Span(1), l, l + 1, b) {
      LeafIn(st, l, b);
    }
    hide In;
    forall w: seq<nat> | PathOk(w, 1) ensures Walk(st, l, w) == if base + Off(w) < n then first + base + Off(w) else 0 {
      LeafWalk(st, l, w);
    }
  }

  /** Children `0 .. m` of a block being filled, child `j` with its pointer blocks in `[cut[j], cut[j + 1])`. */
  ghost predicate Children(st: Store, b: Block, k: nat, first: nat, base: nat, n: nat, m: nat, cut: seq<nat>) {
    && m <= PTRS && |cut| == m + 1
    && (forall j :: 0 <= j < m ==> cut[j] <= cut[j + 1])
    && (forall j :: 0 <= j < m ==> Built(st, b[j], k, first, base + j * Span(k), n, cut[j], cut[j + 1]))
    && (forall j :: m <= j < PTRS ==> b[j] == 0)
  }

  lemma {:induction false} CutMono(cut: seq<nat>, i: nat, j: nat)
    requires i <= j < |cut| && forall x :: 0 <= x < |cut| - 1 ==> cut[x] <= cut[x + 1]
    ensures cut[i] <= cut[j]
    decreases j - i
  {
    if i < j { CutMono(cut, i, j - 1); }
  }

  /** One more child. */
  lemma AddChild(st: Store, st': Store, b: Block, k: nat, first: nat, base: nat, n: nat, m: nat, cut: seq<nat>, c: u32, hi: nat)
    requires Children(st, b, k, first, base, n, m, cut) && m < PTRS && |st| == |st'| && first + n <= cut[0]
    requires forall x :: 0 <= x < |st| && st'[x] != st[x] ==> x >= cut[m]
    requires Built(st', c, k, first, base + m * Span(k), n, cut[m], hi) && cut[m] <= hi
    ensures Children(st', b[m := c], k, first, base, n, m + 1, cut + [hi])
  {
    hide Built;
    forall j | 0 <= j < m ensures Built(st', b[j], k, first, base + j * Span(k), n, cut[j], cut[j + 1]) {
      CutMono(cut, j + 1, m);
      CutMono(cut, 0, j + 1);
      BuiltFrame(st, st', b[j], k, first, base + j * Span(k), n, cut[j], cut[j + 1]);
    }
  }

  /** Child `j` of the written parent `p` is a tree at its own place, and leads to its own data blocks. */
  ghost predicate Inside(st: Store, b: Block, k: nat, first: nat, base: nat, n: nat, m: nat, cut: seq<nat>, p: nat, j: nat)
    requires |cut| == m + 1 && j < PTRS
  {
    && Tree(st, b[j], k) && !In(st, b[j], k, 0, p)
    && (forall x :: In(st, b[j], k, 0, x) ==> j < m && Place(first, base + j * Span(k), n, Span(k), cut[j], cut[j + 1], x))
    && (forall w: seq<nat> :: PathOk(w, k) ==>
          Walk(st, b[j], w) == if j < m && base + j * Span(k) + Off(w) < n then first + base + j * Span(k) + Off(w) else 0)
  }

  /** A child keeps its place when the parent block `p` is written below it. */
  lemma ChildPlaced(st: Store, b: Block, k: nat, first: nat, base: nat, n: nat, m: nat, cut: seq<nat>, p: nat, j: nat)
    requires Children(st, b, k, first, base, n, m, cut) && j < PTRS
    requires first + n <= p < cut[0] && p < |st|
    ensures Inside(st[p := b], b, k, first, base, n, m, cut, p, j)
  {
    var st' := st[p := b];
    if j < m {
      CutMono(cut, 0, j);
      assert Built(st, b[j], k, first, base + j * Span(k), n, cut[j], cut[j + 1]);
      hide Tree;
      forall x | 0 <= x < |st| && In(st, b[j], k, 1, x) ensures st'[x] == st[x] {
        InBounds(st, b[j], k, 1, x);
      }
      Frame(st, st', b[j], k);
      hide In;
      forall w: seq<nat> | PathOk(w, k) ensures Walk(st', b[j], w) == Walk(st, b[j], w) {
        FrameWalk(st, st', b[j], k, w);
      }
    }
  }

  /** All children of the parent block `p` of level `k + 1` are in place. */
  ghost predicate Family(st: Store, b: Block, k: nat, first: nat, base: nat, n: nat, m: nat, cut: seq<nat>, p: nat) {
    && m <= PTRS && |cut| == m + 1 && first + n <= p < cut[0] && 0 < p < |st| && st[p] == b
    && (forall x :: 0 <= x < |cut| - 1 ==> cut[x] <= cut[x + 1])
    && (forall j :: 0 <= j < PTRS ==> Inside(st, b, k, first, base, n, m, cut, p, j))
  }

  lemma PlacesApart(first: nat, base: nat, n: nat, span: nat, i: nat, j: nat, lo: nat, hi: nat, lo': nat, hi': nat, x: int)
    requires i < j && first + n <= lo <= hi <= lo'
    requires Place(first, base + i * span, n, span, lo, hi, x)
    ensures !Place(first, base + j * span, n, span, lo', hi', x)
  {
    Mono(i + 1, j, span);
    assert (i + 1) * span == i * span + span;
  }

  lemma FamilyApart(st: Store, b: Block, k: nat, first: nat, base: nat, n: nat, m: nat, cut: seq<nat>, p: nat, i: nat, j: nat)
    requires Family(st, b, k, first, base, n, m, cut, p) && i < j < PTRS
    ensures Apart(st, b[i], k, b[j], k)
  {
    hide In, Tree, Walk, Place;
    assert Inside(st, b, k, first, base, n, m, cut, p, i) && Inside(st, b, k, first, base, n, m, cut, p, j);
    if j < m {
      CutMono(cut, i + 1, j);
      CutMono(cut, 0, i);
      forall x | In(st, b[i], k, 0, x) ensures !Place(first, base + j * Span(k), n, Span(k), cut[j], cut[j + 1], x) {
        PlacesApart(first, base, n, Span(k), i, j, cut[i], cut[i + 1], cut[j], cut[j + 1], x);
      }
    }
  }

  lemma FamilyTree(st: Store, b: Block, k: nat, first: nat, base: nat, n: nat, m: nat, cut: seq<nat>, p: nat)
    requires Family(st, b, k, first, base, n, m, cut, p)
    ensures Tree(st, p, k + 1)
  {
    hide In, Walk, Place;
    forall i, j | 0 <= i < j < PTRS ensures Apart(st, b[i], k, b[j], k) {
      FamilyApart(st, b, k, first, base, n, m, cut, p, i, j);
    }
    forall j | 0 <= j < PTRS ensures Tree(st, b[j], k) && !In(st, b[j], k, 0, p) {
      assert Inside(st, b, k, first, base, n, m, cut, p, j);
    }
  }

  lemma PlaceUp(first: nat, base: nat, n: nat, span: nat, j: nat, lo: nat, hi: nat, lo': nat, hi': nat, x: int)
    requires j < PTRS && Place(first, base + j * span, n, span, lo, hi, x) && lo' <= lo && hi <= hi'
    ensures Place(first, base, n, PTRS * span, lo', hi', x)
  {
    Mono(j + 1, PTRS, span);
    assert (j + 1) * span == j * span + span;
  }

  lemma FamilyIn(st: Store, b: Block, k: nat, first: nat, base: nat, n: nat, m: nat, cut: seq<nat>, p: nat, x: int)
    requires Family(st, b, k, first, base, n, m, cut, p) && In(st, p, k + 1, 0, x)
    ensures Place(first, base, n, Span(k + 1), p, cut[m], x)
  {
    CutMono(cut, 0, m);
    if x != p {
      var j :| 0 <= j < PTRS && In(st, b[j], k, 0, x);
      hide In, Tree, Walk;
      assert Inside(st, b, k, first, base, n, m, cut, p, j);
      CutMono(cut, 0, j);
      CutMono(cut, j + 1, m);
      hide Inside, Place, Family;
      PlaceUp(first, base, n, Span(k), j, cut[j], cut[j + 1], p, cut[m], x);
    }
  }

  lemma FamilyWalk(st: Store, b: Block, k: nat, first: nat, base: nat, n: nat, m: nat, cut: seq<nat>, p: nat, w: seq<nat>)
    requires Family(st, b, k, first, base, n, m, cut, p) && PathOk(w, k + 1)
    requires m == PTRS || base + m * Span(k) >= n
    ensures Walk(st, p, w) == if base + Off(w) < n then first + base + Off(w) else 0
  {
    hide In, Tree;
    var j := w[0];
    assert Inside(st, b, k, first, base, n, m, cut, p, j);
    assert PathOk(w[1..], k);
    if j >= m { Mono(m, j, Span(k)); }
  }

  /** A filled parent block over its children. */
  lemma BuiltParent(st: Store, b: Block, k: nat, kk: nat, first: nat, base: nat, n: nat, m: nat, cut: seq<nat>, p: nat)
    requires Children(st, b, k, first, base, n, m, cut) && first + n <= p < cut[0] && p < |st| && 0 < p && kk == k + 1
    requires m == PTRS || base + m * Span(k) >= n
    ensures Built(st[p := b], p, kk, first, base, n, p, cut[m])
  {
    var st' := st[p := b];
    hide Tree, In, Walk, Inside, Off;
    forall j | 0 <= j < PTRS ensures Inside(st', b, k, first, base, n, m, cut, p, j) {
      ChildPlaced(st, b, k, first, base, n, m, cut, p, j);
    }
    assert Family(st', b, k, first, base, n, m, cut, p);
    hide Family, Children;
    FamilyTree(st', b, k, first, base, n, m, cut, p);
    forall x | In(st', p, kk, 0, x) ensures Place(first, base, n, Span(kk), p, cut[m], x) {
      FamilyIn(st', b, k, first, base, n, m, cut, p, x);
    }
    forall w: seq<nat> | PathOk(w, kk) ensures Walk(st', p, w) == if base + Off(w) < n then first + base + Off(w) else 0 {
      FamilyWalk(st', b, k, first, base, n, m, cut, p, w);
    }
  }

  // ----- The whole inode -----

  /** Root `r` holds its part of the file; its pointer blocks lie in `[cut[r], cut[r + 1])`. */
  ghost predicate RootBuilt(st: Store, ptr: Roots, r: nat, first: nat, n: nat, cut: seq<nat>)
    requires r < 13 && |cut| == 14
  {
    cut[r] <= cut[r + 1] && Built(st, ptr[r], Level(r), first, Base(r), n, cut[r], cut[r + 1])
  }

  lemma RootRanges(r: nat, s: nat)
    requires r < s < 13
    ensures Base(r) + Span(Level(r)) <= Base(s)
  {
    assert Span(1) == 1024 && Span(2) == 1048576;
  }

  lemma {:induction false} RootCuts(st: Store, ptr: Roots, first: nat, n: nat, cut: seq<nat>, i: nat, j: nat)
    requires |cut| == 14 && i <= j < 14 && forall r :: 0 <= r < 13 ==> RootBuilt(st, ptr, r, first, n, cut)
    ensures cut[i] <= cut[j]
    decreases j - i
  {
    hide Built;
    if i < j {
      RootCuts(st, ptr, first, n, cut, i, j - 1);
      assert RootBuilt(st, ptr, j - 1, first, n, cut);
    }
  }

  /** The kernel reads back exactly the blocks the builder laid out, in order, and holes beyond them. */
  lemma FileBuilt(st: Store, ptr: Roots, first: nat, n: nat, cut: seq<nat>)
    requires |cut| == 14 && first + n <= cut[0] && forall r :: 0 <= r < 13 ==> RootBuilt(st, ptr, r, first, n, cut)
    ensures FileOk(st, ptr)
    ensures forall m :: 0 <= m < MAX_LOGICAL ==> Lookup(st, ptr, m) == if m < n then first + m else 0
  {
    hide Tree, In, Walk, Off, SlotOf;
    forall r, s | 0 <= r < s < 13 ensures Apart(st, ptr[r], Level(r), ptr[s], Level(s)) {
      assert RootBuilt(st, ptr, r, first, n, cut) && RootBuilt(st, ptr, s, first, n, cut);
      RootRanges(r, s);
      RootCuts(st, ptr, first, n, cut, r + 1, s);
      RootCuts(st, ptr, first, n, cut, 0, r);
    }
    forall r | 0 <= r < 13 ensures Tree(st, ptr[r], Level(r)) { assert RootBuilt(st, ptr, r, first, n, cut); }
    forall m | 0 <= m < MAX_LOGICAL ensures Lookup(st, ptr, m) == if m < n then first + m else 0 {
      SlotOff(m);
      assert RootBuilt(st, ptr, SlotOf(m).root, first, n, cut);
    }
  }

  /** A root that the file does not reach stays empty. */
  lemma BuiltNothing(st: Store, k: nat, first: nat, base: nat, n: nat, lo: nat)
    requires base >= n
    ensures Built(st, 0, k, first, base, n, lo, lo)
  {
  }

  lemma BuiltDirect(st: Store, first: nat, base: nat, n: nat, lo: nat)
    requires 0 < first && base < n && first + n <= |st|
    ensures Built(st, first + base, 0, first, base, n, lo, lo)
  {
  }

  // ----- How many pointer blocks a file needs -----

  /** The pointer blocks of a tree of level `k` for the data blocks from `base` on. */
  function Metas(k: nat, n: nat, base: nat): nat
    decreases k, n, 0
  {
    if k == 0 || base >= n then 0 else 1 + MetaSum(k - 1, n, base, PTRS)
  }

  /** The same for the first `m` children of a block. */
  function MetaSum(k: nat, n: nat, base: nat, m: nat): nat
    decreases k, n, m + 1
  {
    if m == 0 then 0 else MetaSum(k, n, base, m - 1) + Metas(k, n, base + (m - 1) * Span(k))
  }

  lemma {:induction false} MetaMono(k: nat, n: nat, base: nat, i: nat, j: nat)
    requires i <= j
    ensures MetaSum(k, n, base, i) <= MetaSum(k, n, base, j)
    decreases j - i
  {
    if i < j { MetaMono(k, n, base, i, j - 1); }
  }

  lemma {:induction false} MetaRest(k: nat, n: nat, base: nat, i: nat, j: nat)
    requires i <= j && base + i * Span(k) >= n
    ensures MetaSum(k, n, base, i) == MetaSum(k, n, base, j)
    decreases j - i
  {
    if i < j {
      MetaRest(k, n, base, i, j - 1);
      Mono(i, j - 1, Span(k));
    }
  }

  /** A child more; the block does not fit if the child does not. */
  lemma MetaChild(k: nat, n: nat, base: nat, m: nat)
    requires m < PTRS && base < n
    ensures MetaSum(k, n, base, m + 1) == MetaSum(k, n, base, m) + Metas(k, n, base + m * Span(k))
    ensures Metas(k + 1, n, base) >= 1 + MetaSum(k, n, base, m + 1)
  {
    MetaMono(k, n, base, m + 1, PTRS);
  }

  lemma MetaDone(k: nat, n: nat, base: nat, m: nat)
    requires base < n && m <= PTRS && (m == PTRS || base + m * Span(k) >= n)
    ensures Metas(k + 1, n, base) == 1 + MetaSum(k, n, base, m)
  {
    if m < PTRS { MetaRest(k, n, base, m, PTRS); }
  }

  /** Everything a file of `n` blocks takes: data blocks and the pointer blocks of its three trees. */
  function FileBlocks(n: nat): nat {
    n + Metas(1, n, DIRECT) + Metas(2, n, DOUBLE_BASE) + Metas(3, n, TRIPLE_BASE)
  }

  lemma NoTreeMetas(n: nat)
    ensures n <= DIRECT ==> Metas(1, n, DIRECT) == 0
    ensures n <= DOUBLE_BASE ==> Metas(2, n, DOUBLE_BASE) == 0
    ensures n <= TRIPLE_BASE ==> Metas(3, n, TRIPLE_BASE) == 0
  {
    hide MetaSum;
  }

  lemma MetaStart(k: nat, n: nat, base: nat)
    requires base < n
    ensures MetaSum(k, n, base, 0) == 0 && Metas(k + 1, n, base) >= 1
  {
  }

  lemma {:induction false} NoMetas(n: nat, base: nat, m: nat)
    ensures MetaSum(0, n, base, m) == 0
    decreases m
  {
    if m > 0 { NoMetas(n, base, m - 1); }
  }

  lemma MetaLeaf(n: nat, base: nat)
    ensures Metas(1, n, base) == if base < n then 1 else 0
  {
    NoMetas(n, base, PTRS);
  }

  // ----- The builder -----

  class Image {
    var total: nat
    var next: nat
    var freeBlocks: int
    var bitmap: Bits
    var disk: Store

    /** Blocks are handed out in order: exactly those below `next` are taken. */
    ghost predicate Valid()
      reads this
    {
      && 0 < next <= total == |disk| == |bitmap| && total < 0x1_0000_0000 && freeBlocks == total - next
      && forall b :: 0 <= b < |bitmap| ==> (bitmap[b] <==> b < next)
    }

    /** `alloc_block`; `ok` is false where it raises "No free blocks". */
    method AllocBlock() returns (ok: bool, b: nat)
      requires Valid()
      modifies `next, `freeBlocks, `bitmap
      ensures Valid() && (ok <==> old(next) < total) && (ok ==> b == old(next) && next == old(next) + 1)
      ensures !ok ==> next == old(next)
    {
      b := next;
      if b >= total { return false, 0; }
      bitmap := bitmap[b := true];
      next := next + 1;
      freeBlocks := freeBlocks - 1;
      ok := true;
    }

    method WriteBlock(b: nat, data: Block)
      requires Valid() && b < total
      modifies `disk
      ensures Valid() && disk == old(disk)[b := data]
    {
      disk := disk[b := data];
    }

    /** A level-1 pointer block for the data blocks from `base` on. */
    method WriteLeaf(first: nat, base: nat, n: nat) returns (ok: bool, l: nat)
      requires Valid() && 0 < first && base < n && first + n <= next
      modifies `next, `freeBlocks, `bitmap, `disk
      ensures Valid() && old(next) <= next
      ensures forall x :: 0 <= x < |disk| && disk[x] != old(disk)[x] ==> x >= old(next)
      ensures ok ==> l == old(next) && Built(disk, l, 1, first, base, n, old(next), next)
      ensures (ok <==> old(next) + Metas(1, n, base) <= total) && (ok ==> next == old(next) + Metas(1, n, base))
    {
      hide Built, Metas;
      MetaLeaf(n, base);
      ok, l := AllocBlock();
      if !ok { return; }
      var data: Block := seq(1024, _ => 0);
      var count := if PTRS < n - base then PTRS else n - base;
      var i := 0;
      while i < count
        invariant i <= count && |data| == 1024
        invariant forall j :: 0 <= j < 1024 ==> data[j] == if j < i then first + base + j else 0
      {
        data := data[i := first + base + i];
        i := i + 1;
      }
      assert data == LeafBlock(first, base, n);
      WriteBlock(l, data);
      BuiltLeaf(disk, l, first, base, n);
    }

    /** A level-2 pointer block and the level-1 blocks below it. */
    method WriteDouble(first: nat, base: nat, n: nat) returns (ok: bool, p: nat)
      requires Valid() && 0 < first && base < n && first + n <= next
      modifies `next, `freeBlocks, `bitmap, `disk
      ensures Valid() && old(next) <= next
      ensures forall x :: 0 <= x < |disk| && disk[x] != old(disk)[x] ==> x >= old(next)
      ensures ok ==> p == old(next) && Built(disk, p, 2, first, base, n, old(next), next)
      ensures (ok <==> old(next) + Metas(2, n, base) <= total) && (ok ==> next == old(next) + Metas(2, n, base))
    {
      hide Built, Children, Metas, MetaSum;
      MetaStart(1, n, base);
      assert Span(1) == PTRS;
      ok, p := AllocBlock();
      if !ok { return; }
      var data: Block := seq(1024, _ => 0);
      var idx, m := base, 0;
      ghost var cut := [next];
      NoChildren(disk, data, 1, first, base, n, cut);
      while idx < n && m < PTRS
        invariant Valid() && p < next && p == old(next) && m <= PTRS && idx == Min(n, base + m * PTRS) && |data| == 1024
        invariant |cut| == m + 1 && cut[m] == next && cut[0] == p + 1 && first + n <= p
        invariant Children(disk, data, 1, first, base, n, m, cut)
        invariant next == old(next) + 1 + MetaSum(1, n, base, m)
        invariant forall x :: 0 <= x < |disk| && disk[x] != old(disk)[x] ==> x >= old(next)
        decreases PTRS - m
        modifies `next, `freeBlocks, `bitmap, `disk
      {
        ghost var st := disk;
        var l;
        MetaChild(1, n, base, m);
        ok, l := WriteLeaf(first, idx, n);
        if !ok { return; }
        AddChild(st, disk, data, 1, first, base, n, m, cut, l, next);
        data := data[m := l];
        cut := cut + [next];
        m := m + 1;
        idx := Min(n, idx + PTRS);
      }
      MetaDone(1, n, base, m);
      BuiltParent(disk, data, 1, 2, first, base, n, m, cut, p);
      WriteBlock(p, data);
      ok := true;
    }

    /** A level-3 pointer block and everything below it. */
    method WriteTriple(first: nat, base: nat, n: nat) returns (ok: bool, p: nat)
      requires Valid() && 0 < first && base < n && first + n <= next
      modifies `next, `freeBlocks, `bitmap, `disk
      ensures Valid() && old(next) <= next
      ensures forall x :: 0 <= x < |disk| && disk[x] != old(disk)[x] ==> x >= old(next)
      ensures ok ==> p == old(next) && Built(disk, p, 3, first, base, n, old(next), next)
      ensures (ok <==> old(next) + Metas(3, n, base) <= total) && (ok ==> next == old(next) + Metas(3, n, base))
    {
      hide Built, Children, Metas, MetaSum;
      MetaStart(2, n, base);
      assert Span(1) == PTRS && Span(2) == 1048576;
      ok, p := AllocBlock();
      if !ok { return; }
      var data: Block := seq(1024, _ => 0);
      var idx, m := base, 0;
      ghost var cut := [next];
      NoChildren(disk, data, 2, first, base, n, cut);
      while idx < n && m < PTRS
        invariant Valid() && p < next && p == old(next) && m <= PTRS && idx == Min(n, base + m * 1048576) && |data| == 1024
        invariant |cut| == m + 1 && cut[m] == next && cut[0] == p + 1 && first + n <= p
        invariant Children(disk, data, 2, first, base, n, m, cut)
        invariant next == old(next) + 1 + MetaSum(2, n, base, m)
        invariant forall x :: 0 <= x < |disk| && disk[x] != old(disk)[x] ==> x >= old(next)
        decreases PTRS - m
        modifies `next, `freeBlocks, `bitmap, `disk
      {
        ghost var st := disk;
        var d;
        MetaChild(2, n, base, m);
        ok, d := WriteDouble(first, idx, n);
        if !ok { return; }
        AddChild(st, disk, data, 2, first, base, n, m, cut, d, next);
        data := data[m := d];
        cut := cut + [next];
        m := m + 1;
        idx := Min(n, idx + 1048576);
      }
      MetaDone(2, n, base, m);
      BuiltParent(disk, data, 2, 3, first, base, n, m, cut, p);
      WriteBlock(p, data);
      ok := true;
    }

    /** The data blocks of `write_file`: one after the other, in file order. */
    method WriteDataBlocks(chunks: seq<Block>) returns (ok: bool)
      requires Valid()
      modifies `next, `freeBlocks, `bitmap, `disk
      ensures Valid() && old(next) <= next && (ok <==> old(next) + |chunks| <= total)
      ensures forall x :: 0 <= x < |disk| && disk[x] != old(disk)[x] ==> x >= old(next)
      ensures ok ==> next == old(next) + |chunks| <= |disk| && forall i :: 0 <= i < |chunks| ==> disk[old(next) + i] == chunks[i]
    {
      var i := 0;
      while i < |chunks|
        invariant Valid() && i <= |chunks| && next == old(next) + i
        invariant forall x :: 0 <= x < |disk| && disk[x] != old(disk)[x] ==> x >= old(next)
        invariant forall x :: old(next) <= x < old(next) + i ==> disk[x] == chunks[x - old(next)]
      {
        var b;
        ok, b := AllocBlock();
        if !ok { return; }
        WriteBlock(b, chunks[i]);
        i := i + 1;
      }
      ok := true;
    }

    /**
     `write_file` for a file of the given blocks: the thirteen pointers it stores in the inode, read by
     the kernel's map, lead to the file's blocks in order and nowhere else.
     */
    method WriteFile(chunks: seq<Block>) returns (ok: bool, ptr: Roots, first: nat)
      requires Valid() && |chunks| < MAX_LOGICAL
      modifies `next, `freeBlocks, `bitmap, `disk
      ensures Valid()
      ensures forall x :: 0 <= x < |disk| && disk[x] != old(disk)[x] ==> x >= old(next)
      ensures ok ==> first == old(next) && FileOk(disk, ptr)
      ensures ok ==> forall m :: 0 <= m < MAX_LOGICAL ==> Lookup(disk, ptr, m) == if m < |chunks| then first + m else 0
      ensures ok ==> first + |chunks| <= |disk| && forall i :: 0 <= i < |chunks| ==> disk[first + i] == chunks[i]
      ensures ok <==> old(next) + FileBlocks(|chunks|) <= total
      ensures ok ==> next == old(next) + FileBlocks(|chunks|)
    {
      hide Built, FileOk, Lookup, Metas;
      NoTreeMetas(|chunks|);
      ptr := NoRoots();
      first := next;
      var n := |chunks|;
      ok := WriteDataBlocks(chunks);
      if !ok { return; }
      ghost var lo := next;
      var i := 0;
      while i < DIRECT && i < n
        invariant i <= DIRECT && i <= n
        invariant forall r :: 0 <= r < 13 ==> ptr[r] == if r < i then first + r else 0
      {
        ptr := ptr[i := first + i];
        i := i + 1;
      }
      ghost var st1 := disk;
      var p := 0;
      ghost var c1 := next;
      if DIRECT < n {
        ok, p := WriteLeaf(first, DIRECT, n);
        if !ok { return; }
        ptr := ptr[SINGLE := p];
      } else {
        BuiltNothing(disk, 1, first, DIRECT, n, c1);
      }
      ghost var st2, c2 := disk, next;
      if DOUBLE_BASE < n {
        ok, p := WriteDouble(first, DOUBLE_BASE, n);
        if !ok { return; }
        ptr := ptr[DOUBLE := p];
      } else {
        BuiltNothing(disk, 2, first, DOUBLE_BASE, n, c2);
      }
      ghost var st3, c3 := disk, next;
      if TRIPLE_BASE < n {
        ok, p := WriteTriple(first, TRIPLE_BASE, n);
        if !ok { return; }
        ptr := ptr[TRIPLE := p];
      } else {
        BuiltNothing(disk, 3, first, TRIPLE_BASE, n, c3);
      }
      BuiltFrame(st2, disk, ptr[SINGLE], 1, first, DIRECT, n, c1, c2);
      BuiltFrame(st3, disk, ptr[DOUBLE], 2, first, DOUBLE_BASE, n, c2, c3);
      Assemble(disk, ptr, first, n, lo, c2, c3, next);
      ok := true;
    }
  }

  lemma NoChildren(st: Store, b: Block, k: nat, first: nat, base: nat, n: nat, cut: seq<nat>)
    requires |cut| == 1 && forall j :: 0 <= j < PTRS ==> b[j] == 0
    ensures Children(st, b, k, first, base, n, 0, cut)
  {
  }

  lemma Assemble(st: Store, ptr: Roots, first: nat, n: nat, c1: nat, c2: nat, c3: nat, c4: nat)
    requires 0 < first && first + n <= c1 <= c2 <= c3 <= c4 && first + n <= |st|
    requires forall r :: 0 <= r < DIRECT ==> ptr[r] == if r < n then first + r else 0
    requires Built(st, ptr[SINGLE], 1, first, DIRECT, n, c1, c2)
    requires Built(st, ptr[DOUBLE], 2, first, DOUBLE_BASE, n, c2, c3)
    requires Built(st, ptr[TRIPLE], 3, first, TRIPLE_BASE, n, c3, c4)
    ensures FileOk(st, ptr)
    ensures forall m :: 0 <= m < MAX_LOGICAL ==> Lookup(st, ptr, m) == if m < n then first + m else 0
  {
    hide Built, FileOk, Lookup;
    var cut: seq<nat> := [c1, c1, c1, c1, c1, c1, c1, c1, c1, c1, c1, c2, c3, c4];
    forall r | 0 <= r < 13 ensures RootBuilt(st, ptr, r, first, n, cut) {
      if r < DIRECT {
        if r < n { BuiltDirect(st, first, r, n, c1); } else { BuiltNothing(st, 0, first, r, n, c1); }
      }
    }
    FileBuilt(st, ptr, first, n, cut);
  }

  // ----- What the kernel makes of the image -----

  /** Every byte of the file as the kernel sees it is the host file's byte; beyond its blocks there are holes. */
  lemma KernelReadsFile(st: Store, ptr: Roots, first: nat, chunks: seq<Block>, pos: nat)
    requires 0 < first && |chunks| < MAX_LOGICAL && first + |chunks| <= |st| && pos < MAX_POS
    requires forall m :: 0 <= m < MAX_LOGICAL ==> Lookup(st, ptr, m) == if m < |chunks| then first + m else 0
    requires forall i :: 0 <= i < |chunks| ==> st[first + i] == chunks[i]
    ensures FileByte(st, ptr, pos) ==
            if pos / BLOCK_SIZE < |chunks| then Byte(ByteAt(chunks[pos / BLOCK_SIZE], pos % BLOCK_SIZE)) else Hole
  {
    hide Lookup, ByteAt;
    var m := pos / BLOCK_SIZE;
    assert m < |chunks| ==> st[first + m] == chunks[m];
  }

  /** Such a file is laid out in ascending order, so the kernel's bulk reads of it are safe. */
  lemma KernelFastReadSafe(st: Store, ptr: Roots, first: nat, n: nat, off: nat, len: nat)
    requires 0 < len && off + len <= n * BLOCK_SIZE && n < MAX_LOGICAL
    requires forall m :: 0 <= m < MAX_LOGICAL ==> Lookup(st, ptr, m) == if m < n then first + m else 0
    ensures FastSafe(st, ptr, off, len)
  {
    hide Lookup;
    AscendingSafe(st, ptr, off, len);
  }

  /**
   The builder reserves 29 blocks for its inode table (1024 inodes of 116 bytes), but 35 inodes go into
   a block and the rest of it is unused: only the first 1015 inodes lie inside the table.
   */
  lemma BuilderInodeInTable(ino: nat)
    requires ino < 1024
    ensures 4096 / 116 == 35 && (1024 * 116 + 4095) / 4096 == 29 && (1024 * 128 + 4095) / 4096 == 32
    ensures (ino / 35 < 29 <==> ino < 1015) && ino / 35 < 32
  {
  }
}
