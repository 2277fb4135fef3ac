/**
 The block map of one inode (thirteen trees) and of the whole inode table.
 */
module FileTree {
  import opened BlockTree

  /** direct[10], indirect, double_indirect, triple_indirect: consecutive words of the inode. */
  type Roots = p: seq<u32> | |p| == 13 witness seq(13, _ => 0)

  const DIRECT: nat := 10
  const SINGLE: nat := 10
  const DOUBLE: nat := 11
  const TRIPLE: nat := 12
  function NoRoots(): Roots { seq(13, _ => 0) }

  const DOUBLE_BASE: nat := 1034
  const TRIPLE_BASE: nat := 1049610
  const MAX_LOGICAL: nat := 1074791434

  /** The file has no blocks at all. */
  predicate NoBlocks(ptr: Roots) { forall r :: 0 <= r < 13 ==> ptr[r] == 0 }

  function Level(r: nat): nat { if r < DIRECT then 0 else r - 9 }

  // ----- One file -----

  ghost predicate FileIn(st: Store, ptr: Roots, lo: int, b: int) {
    exists r :: 0 <= r < 13 && In(st, ptr[r], Level(r), lo, b)
  }

  ghost predicate FileOk(st: Store, ptr: Roots) {
    && (forall r :: 0 <= r < 13 ==> Tree(st, ptr[r], Level(r)))
    && (forall r, s :: 0 <= r < s < 13 ==> Apart(st, ptr[r], Level(r), ptr[s], Level(s)))
  }

  /** A place for a pointer: root `root` of the inode, then down `path`. */
  datatype Slot = Slot(root: nat, path: seq<nat>)

  predicate Proper(s: Slot) { s.root < 13 && |s.path| <= Level(s.root) }

  /** Where the pointer to logical block `n` is kept. */
  function SlotOf(n: nat): (s: Slot)
    requires n < MAX_LOGICAL
    ensures s.root < 13 && |s.path| == Level(s.root) && forall i :: 0 <= i < |s.path| ==> s.path[i] < PTRS
  {
    if n < DIRECT then Slot(n, [])
    else if n < DOUBLE_BASE then Slot(SINGLE, [n - DIRECT])
    else if n < TRIPLE_BASE then
      var d := n - DOUBLE_BASE;
      Slot(DOUBLE, [d / PTRS, d % PTRS])
    else
      var d := n - TRIPLE_BASE;
      Slot(TRIPLE, [d / (PTRS * PTRS), d % (PTRS * PTRS) / PTRS, d % (PTRS * PTRS) % PTRS])
  }

  lemma PathOf(n: nat, path: seq<nat>, i: nat, j: nat)
    requires n < MAX_LOGICAL && SlotOf(n).path == path + [i] + [j]
    ensures |path| + 2 == Level(SlotOf(n).root) && DOUBLE <= SlotOf(n).root < 13
  {
  }

  lemma SlotInjective(n: nat, m: nat)
    requires n < MAX_LOGICAL && m < MAX_LOGICAL && SlotOf(n) == SlotOf(m)
    ensures n == m
  {
    var s := SlotOf(n);
    assert |s.path| >= 1 ==> s.path[0] == SlotOf(m).path[0];
    assert |s.path| >= 2 ==> s.path[1] == SlotOf(m).path[1];
    assert |s.path| >= 3 ==> s.path[2] == SlotOf(m).path[2];
  }

  function At(st: Store, ptr: Roots, s: Slot): nat
    requires Proper(s)
  {
    Walk(st, ptr[s.root], s.path)
  }

  /** The disk block of logical block `n`, 0 for a hole. */
  function Lookup(st: Store, ptr: Roots, n: nat): nat
    requires n < MAX_LOGICAL
  {
    At(st, ptr, SlotOf(n))
  }

  /** How many of the first `k` pointer blocks on `path` are missing. */
  function Gaps(st: Store, ptr: Roots, r: nat, path: seq<nat>, k: nat): nat
    requires r < 13 && k <= |path| <= Level(r)
  {
    if k == 0 then 0 else Gaps(st, ptr, r, path, k - 1) + if At(st, ptr, Slot(r, path[..k - 1])) == 0 then 1 else 0
  }

  /** The pointer blocks that have to be made before logical block `n` can be mapped. */
  function Missing(st: Store, ptr: Roots, n: nat): nat
    requires n < MAX_LOGICAL
  {
    Gaps(st, ptr, SlotOf(n).root, SlotOf(n).path, |SlotOf(n).path|)
  }

  lemma MissingDirect(st: Store, ptr: Roots, n: nat)
    requires n < DIRECT
    ensures Missing(st, ptr, n) == 0
  {
  }

  lemma MissingSingle(st: Store, ptr: Roots, n: nat)
    requires DIRECT <= n < DOUBLE_BASE
    ensures Missing(st, ptr, n) == if ptr[SINGLE] == 0 then 1 else 0
  {
    var path := SlotOf(n).path;
    assert path[..0] == [];
    assert Gaps(st, ptr, SINGLE, path, 1) == Gaps(st, ptr, SINGLE, path, 0) + if ptr[SINGLE] == 0 then 1 else 0;
  }

  lemma MissingDouble(st: Store, ptr: Roots, n: nat)
    requires DOUBLE_BASE <= n < TRIPLE_BASE && ptr[DOUBLE] < |st|
    ensures Missing(st, ptr, n) ==
            if ptr[DOUBLE] == 0 then 2 else if st[ptr[DOUBLE]][(n - DOUBLE_BASE) / PTRS] == 0 then 1 else 0
  {
    var path := SlotOf(n).path;
    assert path[..0] == [] && path[..1] == [path[0]];
    assert Gaps(st, ptr, DOUBLE, path, 2) == Gaps(st, ptr, DOUBLE, path, 1) + if At(st, ptr, Slot(DOUBLE, [path[0]])) == 0 then 1 else 0;
    assert Gaps(st, ptr, DOUBLE, path, 1) == Gaps(st, ptr, DOUBLE, path, 0) + if ptr[DOUBLE] == 0 then 1 else 0;
    WalkOne(st, ptr[DOUBLE], path[0]);
  }

  lemma MissingTriple(st: Store, ptr: Roots, n: nat)
    requires TRIPLE_BASE <= n < MAX_LOGICAL && ptr[TRIPLE] < |st|
    requires var d := (n - TRIPLE_BASE) / (PTRS * PTRS); ptr[TRIPLE] != 0 ==> st[ptr[TRIPLE]][d] < |st|
    ensures var d, e := (n - TRIPLE_BASE) / (PTRS * PTRS), (n - TRIPLE_BASE) % (PTRS * PTRS) / PTRS;
            Missing(st, ptr, n) ==
            if ptr[TRIPLE] == 0 then 3
            else if st[ptr[TRIPLE]][d] == 0 then 2
            else if st[st[ptr[TRIPLE]][d]][e] == 0 then 1 else 0
  {
    var path := SlotOf(n).path;
    assert path[..0] == [] && path[..1] == [path[0]] && path[..2] == [path[0], path[1]];
    assert Gaps(st, ptr, TRIPLE, path, 3) == Gaps(st, ptr, TRIPLE, path, 2) + if At(st, ptr, Slot(TRIPLE, [path[0], path[1]])) == 0 then 1 else 0;
    assert Gaps(st, ptr, TRIPLE, path, 2) == Gaps(st, ptr, TRIPLE, path, 1) + if At(st, ptr, Slot(TRIPLE, [path[0]])) == 0 then 1 else 0;
    assert Gaps(st, ptr, TRIPLE, path, 1) == Gaps(st, ptr, TRIPLE, path, 0) + if ptr[TRIPLE] == 0 then 1 else 0;
    WalkOne(st, ptr[TRIPLE], path[0]);
    if ptr[TRIPLE] != 0 { WalkTwo(st, ptr[TRIPLE], path[0], path[1]); }
  }

  lemma {:induction false} GapsSame(st: Store, st': Store, ptr: Roots, r: nat, path: seq<nat>, k: nat)
    requires r < 13 && k <= |path| <= Level(r) && forall s :: Proper(s) ==> At(st', ptr, s) == At(st, ptr, s)
    ensures Gaps(st', ptr, r, path, k) == Gaps(st, ptr, r, path, k)
    decreases k
  {
    hide At;
    if k > 0 {
      GapsSame(st, st', ptr, r, path, k - 1);
      assert Proper(Slot(r, path[..k - 1]));
    }
  }

  lemma Roots2(st: Store, ptr: Roots, r: nat, s: nat, b: int)
    requires FileOk(st, ptr) && r < 13 && s < 13
    requires In(st, ptr[r], Level(r), 0, b) && In(st, ptr[s], Level(s), 0, b)
    ensures r == s
  {
    assert r < s ==> Apart(st, ptr[r], Level(r), ptr[s], Level(s));
    assert s < r ==> Apart(st, ptr[s], Level(s), ptr[r], Level(r));
  }

  lemma AtIn(st: Store, ptr: Roots, s: Slot)
    requires FileOk(st, ptr) && Proper(s) && At(st, ptr, s) != 0
    ensures 0 < At(st, ptr, s) < |st| && FileIn(st, ptr, 0, At(st, ptr, s))
  {
    WalkIn(st, ptr[s.root], Level(s.root), s.path);
    InBounds(st, ptr[s.root], Level(s.root), 0, At(st, ptr, s));
  }

  lemma PointerInRange(st: Store, ptr: Roots, r: nat, path: seq<nat>)
    requires FileOk(st, ptr) && r < 13 && |path| <= Level(r)
    ensures Walk(st, ptr[r], path) == 0 || Walk(st, ptr[r], path) < |st|
  {
    if Walk(st, ptr[r], path) != 0 { AtIn(st, ptr, Slot(r, path)); }
  }

  /** A block found through the map is a data block of the file, never one of its pointer blocks. */
  lemma LookupData(st: Store, ptr: Roots, n: nat)
    requires FileOk(st, ptr) && n < MAX_LOGICAL && Lookup(st, ptr, n) != 0
    ensures FileIn(st, ptr, 0, Lookup(st, ptr, n)) && !FileIn(st, ptr, 1, Lookup(st, ptr, n))
    ensures 0 < Lookup(st, ptr, n) < |st|
  {
    var s, b := SlotOf(n), Lookup(st, ptr, n);
    WalkIn(st, ptr[s.root], Level(s.root), s.path);
    InBounds(st, ptr[s.root], Level(s.root), 0, b);
    forall r | 0 <= r < 13 && In(st, ptr[r], Level(r), 1, b) ensures r == s.root {
      InBounds(st, ptr[r], Level(r), 1, b);
      Roots2(st, ptr, r, s.root, b);
    }
  }

  /** No block is reached through two places of a file. */
  lemma AtInjective(st: Store, ptr: Roots, s: Slot, t: Slot)
    requires FileOk(st, ptr) && Proper(s) && Proper(t) && s != t && At(st, ptr, s) != 0
    ensures At(st, ptr, s) != At(st, ptr, t)
  {
    if s.root == t.root {
      WalkInjective(st, ptr[s.root], Level(s.root), s.path, t.path);
    } else if At(st, ptr, t) != 0 {
      WalkIn(st, ptr[s.root], Level(s.root), s.path);
      WalkIn(st, ptr[t.root], Level(t.root), t.path);
      if At(st, ptr, s) == At(st, ptr, t) { Roots2(st, ptr, s.root, t.root, At(st, ptr, s)); }
    }
  }

  /** No disk block serves two logical positions of a file. */
  lemma LookupInjective(st: Store, ptr: Roots, n: nat, m: nat)
    requires FileOk(st, ptr) && n < MAX_LOGICAL && m < MAX_LOGICAL && n != m
    requires Lookup(st, ptr, n) != 0
    ensures Lookup(st, ptr, n) != Lookup(st, ptr, m)
  {
    if SlotOf(n) == SlotOf(m) { SlotInjective(n, m); }
    AtInjective(st, ptr, SlotOf(n), SlotOf(m));
  }

  ghost predicate SameFile(st: Store, st': Store, ptr: Roots) {
    && FileOk(st', ptr)
    && (forall lo, b :: FileIn(st', ptr, lo, b) <==> FileIn(st, ptr, lo, b))
    && (forall s :: Proper(s) ==> At(st', ptr, s) == At(st, ptr, s))
  }

  /** Writes that avoid the pointer blocks of a file do not change its map. */
  lemma FileFrame(st: Store, st': Store, ptr: Roots)
    requires FileOk(st, ptr) && |st| == |st'|
    requires forall b :: 0 <= b < |st| && FileIn(st, ptr, 1, b) ==> st'[b] == st[b]
    ensures SameFile(st, st', ptr)
  {
    forall r | 0 <= r < 13
      ensures Tree(st', ptr[r], Level(r)) && SameIn(st, st', ptr[r], Level(r)) && Agree(st, st', ptr[r], Level(r))
    {
      Frame(st, st', ptr[r], Level(r));
    }
    forall s | Proper(s) ensures At(st', ptr, s) == At(st, ptr, s) {
      FrameWalk(st, st', ptr[s.root], Level(s.root), s.path);
    }
  }

  /** Replacing one of the thirteen trees; the counterpart of `ReplaceChild` at the inode. */
  lemma ReplaceRoot(st: Store, st': Store, ptr: Roots, r: nat, q: u32, extra: set<nat>)
    requires FileOk(st, ptr) && |st| == |st'| && r < 13
    requires forall b :: 0 <= b < |st| && st'[b] != st[b] ==> b in extra || In(st, ptr[r], Level(r), 0, b)
    requires forall b :: b in extra ==> !FileIn(st, ptr, 0, b)
    requires Tree(st', q, Level(r))
    requires forall b :: In(st', q, Level(r), 0, b) ==> b in extra || In(st, ptr[r], Level(r), 0, b)
    ensures FileOk(st', ptr[r := q])
    ensures forall b :: FileIn(st', ptr[r := q], 0, b) <==>
              (FileIn(st, ptr, 0, b) && !In(st, ptr[r], Level(r), 0, b)) || In(st', q, Level(r), 0, b)
    ensures forall s :: 0 <= s < 13 && s != r ==> Agree(st, st', ptr[s], Level(s))
  {
    hide Tree, In;
    var ptr' := ptr[r := q];
    forall s | 0 <= s < 13 && s != r
      ensures Agree(st, st', ptr[s], Level(s))
      ensures Tree(st', ptr[s], Level(s)) && SameIn(st, st', ptr[s], Level(s))
    {
      forall b | 0 <= b < |st| && In(st, ptr[s], Level(s), 1, b) ensures st'[b] == st[b] {
        InBounds(st, ptr[s], Level(s), 1, b);
        assert r < s ==> Apart(st, ptr[r], Level(r), ptr[s], Level(s));
        assert s < r ==> Apart(st, ptr[s], Level(s), ptr[r], Level(r));
        assert FileIn(st, ptr, 0, b);
      }
      Frame(st, st', ptr[s], Level(s));
    }
    forall a, c | 0 <= a < c < 13 ensures Apart(st', ptr'[a], Level(a), ptr'[c], Level(c)) {
      assert Apart(st, ptr[a], Level(a), ptr[c], Level(c));
      var o := if a == r then c else a;
      assert forall b :: In(st', ptr'[o], Level(o), 0, b) ==> FileIn(st, ptr, 0, b);
    }
    forall b ensures FileIn(st', ptr', 0, b) <==>
              (FileIn(st, ptr, 0, b) && !In(st, ptr[r], Level(r), 0, b)) || In(st', q, Level(r), 0, b)
    {
      if s :| 0 <= s < 13 && s != r && In(st, ptr[s], Level(s), 0, b) {
        assert In(st', ptr'[s], Level(s), 0, b);
        assert s < r ==> Apart(st, ptr[s], Level(s), ptr[r], Level(r));
        assert r < s ==> Apart(st, ptr[r], Level(r), ptr[s], Level(s));
      }
      assert ptr'[r] == q;
    }
  }

  /** One block has joined the file, at slot `at` and nowhere else. */
  ghost predicate Joined(st: Store, ptr: Roots, st': Store, ptr': Roots, at: Slot, v: nat) {
    && FileOk(st', ptr')
    && (forall b :: FileIn(st', ptr', 0, b) <==> FileIn(st, ptr, 0, b) || b == v)
    && (forall s :: Proper(s) ==> At(st', ptr', s) == if s == at then v else At(st, ptr, s))
  }

  lemma AtElsewhere(st: Store, st': Store, ptr: Roots, r: nat, q: u32)
    requires FileOk(st, ptr) && r < 13
    requires forall s :: 0 <= s < 13 && s != r ==> Agree(st, st', ptr[s], Level(s))
    ensures forall s :: Proper(s) && s.root != r ==> At(st', ptr[r := q], s) == At(st, ptr, s)
  {
    forall s | Proper(s) && s.root != r ensures At(st', ptr[r := q], s) == At(st, ptr, s) {
      FrameWalk(st, st', ptr[s.root], Level(s.root), s.path);
    }
  }

  /** Filling the empty root pointer `r`. */
  lemma JoinRoot(st: Store, ptr: Roots, r: nat, v: u32)
    requires FileOk(st, ptr) && r < 13 && ptr[r] == 0 && 0 < v < |st| && !FileIn(st, ptr, 0, v)
    requires Level(r) > 0 ==> st[v] == ZERO_BLOCK
    ensures Joined(st, ptr, st, ptr[r := v], Slot(r, []), v)
  {
    var ptr' := ptr[r := v];
    ZeroTree(st, v, Level(r));
    ReplaceRoot(st, st, ptr, r, v, {v});
    AtElsewhere(st, st, ptr, r, v);
    forall s | Proper(s) && s.root == r
      ensures At(st, ptr', s) == if s == Slot(r, []) then v else At(st, ptr, s)
    {
      assert Walk(st, ptr[r], s.path) == 0;
      assert s.path != [] ==> Walk(st, v, s.path) == 0;
    }
  }

  /** Filling slot `i` of the pointer block `q` that `path` leads to. */
  lemma JoinAt(st: Store, st': Store, ptr: Roots, r: nat, path: seq<nat>, i: nat, v: u32, q: nat)
    requires FileOk(st, ptr) && r < 13 && |path| < Level(r) && i < PTRS && 0 < v < |st|
    requires 0 < q < |st| && q == Walk(st, ptr[r], path) && !FileIn(st, ptr, 0, v)
    requires st[q][i] == 0 && (|path| + 1 < Level(r) ==> st[v] == ZERO_BLOCK) && st' == st[q := st[q][i := v]]
    ensures Joined(st, ptr, st', ptr, Slot(r, path + [i]), v)
  {
    hide Tree, In;
    Attach(st, st', ptr[r], Level(r), path, i, v, q);
    WalkIn(st, ptr[r], Level(r), path);
    ReplaceRoot(st, st', ptr, r, ptr[r], {v});
    assert ptr[r := ptr[r]] == ptr;
    AtElsewhere(st, st', ptr, r, ptr[r]);
    forall s | Proper(s) && s.root == r
      ensures At(st', ptr, s) == if s == Slot(r, path + [i]) then v else At(st, ptr, s)
    {
      assert Walk(st', ptr[r], s.path) == if s.path == path + [i] then v else Walk(st, ptr[r], s.path);
    }
  }

  /** `ptr'` is `ptr`, except that root `r` may have been filled if it was empty. */
  ghost predicate FillsRoot(ptr: Roots, ptr': Roots, r: nat) {
    r < 13 && ptr' == ptr[r := ptr'[r]] && (ptr[r] != 0 ==> ptr' == ptr)
  }

  // ----- The inode table -----

  /** Every file is well formed and no block belongs to two files. */
  ghost predicate FsOk(st: Store, tbl: seq<Roots>) {
    && (forall i :: 0 <= i < |tbl| ==> FileOk(st, tbl[i]))
    && (forall i, j, b :: 0 <= i < |tbl| && 0 <= j < |tbl| && FileIn(st, tbl[i], 0, b) && FileIn(st, tbl[j], 0, b) ==>
          i == j)
  }

  lemma FileInAll(st: Store, ptr: Roots, lo: int, b: int)
    requires FileIn(st, ptr, lo, b)
    ensures FileIn(st, ptr, 0, b) && 0 < b < |st|
  {
    var r :| 0 <= r < 13 && In(st, ptr[r], Level(r), lo, b);
    InBounds(st, ptr[r], Level(r), lo, b);
  }

  /** An operation on file `i` that touches only its own blocks and blocks of no file. */
  lemma ReplaceFile(st: Store, st': Store, tbl: seq<Roots>, i: nat, ptr: Roots, extra: set<nat>)
    requires FsOk(st, tbl) && |st| == |st'| && i < |tbl|
    requires forall b :: 0 <= b < |st| && st'[b] != st[b] ==> b in extra || FileIn(st, tbl[i], 0, b)
    requires forall b, j :: 0 <= j < |tbl| && b in extra ==> !FileIn(st, tbl[j], 0, b)
    requires FileOk(st', ptr)
    requires forall b :: FileIn(st', ptr, 0, b) ==> b in extra || FileIn(st, tbl[i], 0, b)
    ensures FsOk(st', tbl[i := ptr])
    ensures forall j :: 0 <= j < |tbl| && j != i ==> SameFile(st, st', tbl[j])
  {
    forall j | 0 <= j < |tbl| && j != i ensures SameFile(st, st', tbl[j]) {
      forall b | 0 <= b < |st| && FileIn(st, tbl[j], 1, b) ensures st'[b] == st[b] {
        FileInAll(st, tbl[j], 1, b);
      }
      FileFrame(st, st', tbl[j]);
    }
  }
}
