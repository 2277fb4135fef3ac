/**
 Cutting the tail off a pointer tree: which data blocks go, which pointer blocks go with them, and
 what the bitmap looks like afterwards.
 */
module Trim {
  import opened BlockTree
  import opened Accounts

  function Span(k: nat): nat { if k == 0 then 1 else PTRS * Span(k - 1) }

  /** The position of a full path among the data blocks below its root. */
  function Off(w: seq<nat>): nat {
    if w == [] then 0 else w[0] * Span(|w| - 1) + Off(w[1..])
  }

  /** What is left of the cut-off for a child that starts at `base`. */
  function Rest(s: nat, base: nat): nat { if base < s then s - base else 0 }

  predicate PathOk(w: seq<nat>, k: nat) {
    |w| == k && forall i :: 0 <= i < k ==> w[i] < PTRS
  }

  lemma {:induction false} OffBound(w: seq<nat>)
    requires PathOk(w, |w|)
    ensures Off(w) < Span(|w|)
  {
    if w != [] {
      OffBound(w[1..]);
      var x := Span(|w| - 1);
      assert w[0] * x + x <= PTRS * x by { Mono(w[0] + 1, PTRS, x); }
    }
  }

  lemma Mono(a: nat, b: nat, x: nat)
    requires a <= b
    ensures a * x <= b * x
  {
  }

  /** Every block of the tree lies in `[ds, |st|)` and is marked. */
  ghost predicate Held(st: Store, p: nat, k: nat, bm: Bits, ds: nat) {
    0 < ds <= |st| <= |bm| && forall b :: In(st, p, k, 0, b) ==> ds <= b < |st| && bm[b]
  }

  /** Between two states only blocks of the old tree were written, and exactly the blocks that left it were freed. */
  ghost predicate Gave(st0: Store, bm0: Bits, p0: nat, k: nat, st: Store, bm: Bits, p: nat) {
    && |st| == |st0| <= |bm| == |bm0| && Tree(st, p, k)
    && (forall b :: In(st, p, k, 0, b) ==> In(st0, p0, k, 0, b))
    && (forall b :: 0 <= b < |bm| ==> (bm[b] <==> bm0[b] && (In(st0, p0, k, 0, b) ==> In(st, p, k, 0, b))))
    && (forall b :: 0 <= b < |st| && st[b] != st0[b] ==> In(st0, p0, k, 0, b))
  }

  /** The data blocks of the tree have kept their contents. */
  ghost predicate Keep(st0: Store, st: Store, p: nat, k: nat) {
    forall w: seq<nat> :: PathOk(w, k) ==> SameData(st0, st, Walk(st, p, w))
  }

  /** The tree of `p0` was cut at data position `s`, leaving the tree of `p`. */
  ghost predicate Cut(st0: Store, bm0: Bits, p0: nat, k: nat, s: nat, st: Store, bm: Bits, p: nat) {
    && Gave(st0, bm0, p0, k, st, bm, p) && Keep(st0, st, p, k)
    && (forall w: seq<nat> :: PathOk(w, k) ==> Walk(st, p, w) == if Off(w) >= s then 0 else Walk(st0, p0, w))
  }

  /** The same, but only the children below `done` have been cut so far. */
  ghost predicate CutUpTo(st0: Store, bm0: Bits, p: nat, k: nat, done: nat, s: nat, st: Store, bm: Bits) {
    && k > 0 && Gave(st0, bm0, p, k, st, bm, p) && Keep(st0, st, p, k)
    && (forall w: seq<nat> :: PathOk(w, k) ==>
          Walk(st, p, w) == if w[0] < done && Off(w) >= s then 0 else Walk(st0, p, w))
  }

  // ----- Level 1 -----

  function Chop(b: Block, s: nat): Block {
    seq(1024, i requires 0 <= i < 1024 => if i < s then b[i] else 0)
  }

  function Cap(s: nat): nat { if s < PTRS then s else PTRS }

  /** The non-zero entries of `b` in `[lo, hi)`. */
  function Entries(b: Block, lo: nat, hi: nat): set<int>
    requires hi <= PTRS
  {
    set i | lo <= i < hi && b[i] != 0 :: b[i] as int
  }

  /** The tree of a pointer block at level 1 is the block and its entries. */
  lemma LeafIn(st: Store, p: nat, b: int)
    requires 0 < p < |st|
    ensures In(st, p, 1, 0, b) <==> b == p || (0 < b < |st| && exists i :: 0 <= i < PTRS && st[p][i] == b)
    ensures In(st, p, 1, 1, b) <==> b == p
  {
    if i :| 0 <= i < PTRS && st[p][i] == b && 0 < b < |st| {
      assert In(st, st[p][i], 0, 0, b);
    }
  }

  lemma LeafTree(st: Store, p: nat)
    requires 0 < p < |st|
    ensures Tree(st, p, 1) <==>
            && (forall i :: 0 <= i < PTRS ==> st[p][i] < |st| && st[p][i] != p)
            && (forall i, j :: 0 <= i < j < PTRS && st[p][i] != 0 ==> st[p][i] != st[p][j])
  {
    if Tree(st, p, 1) {
      forall i, j | 0 <= i < j < PTRS && st[p][i] != 0 ensures st[p][i] != st[p][j] {
        assert Apart(st, st[p][i], 0, st[p][j], 0);
        assert In(st, st[p][i], 0, 0, st[p][i]);
      }
    }
  }

  lemma LeafWalk(st: Store, p: nat, w: seq<nat>)
    requires p < |st| && PathOk(w, 1)
    ensures Walk(st, p, w) == (if p == 0 then 0 else st[p][w[0]]) && Off(w) == w[0]
  {
    assert w == [w[0]] && w[1..] == [];
    WalkOne(st, p, w[0]);
  }

  /** After clearing entry `i` of a block whose entries in `[s, i)` are already freed. */
  lemma FreedStep(b: Block, bm0: Bits, bm: Bits, s: nat, i: nat, ds: nat, total: nat)
    requires GoodEntries(b, bm0, ds, total) && s <= i < PTRS && Freed(bm0, bm, Entries(b, s, i))
    ensures b[i] == 0 ==> Freed(bm0, bm, Entries(b, s, i + 1))
    ensures b[i] != 0 ==> bm[b[i]] && Freed(bm0, bm[b[i] := false], Entries(b, s, i + 1))
  {
    assert b[i] == 0 ==> Entries(b, s, i + 1) == Entries(b, s, i);
    assert b[i] != 0 ==> Entries(b, s, i + 1) == Entries(b, s, i) + {b[i] as int};
    assert b[i] != 0 ==> b[i] as int !in Entries(b, s, i);
  }

  ghost predicate Freed(bm0: Bits, bm: Bits, gone: set<int>) {
    |bm| == |bm0| && forall b :: 0 <= b < |bm| ==> (bm[b] <==> bm0[b] && b !in gone)
  }

  /** The non-zero entries are distinct marked blocks of the data area. */
  ghost predicate GoodEntries(b: Block, bm: Bits, ds: nat, total: nat) {
    && total <= |bm|
    && (forall i :: 0 <= i < PTRS && b[i] != 0 ==> ds <= b[i] < total && bm[b[i]])
    && (forall i, j :: 0 <= i < j < PTRS && b[i] != 0 ==> b[i] != b[j])
  }

  lemma LeafEntries(st: Store, p: nat, bm: Bits, ds: nat)
    requires 0 < p < |st| && Tree(st, p, 1) && Held(st, p, 1, bm, ds)
    ensures GoodEntries(st[p], bm, ds, |st|) && ds <= p && bm[p] && forall i :: 0 <= i < PTRS ==> st[p][i] != p
  {
    LeafTree(st, p);
    LeafIn(st, p, p);
    hide Tree;
    forall i | 0 <= i < PTRS && st[p][i] != 0 ensures ds <= st[p][i] < |st| && bm[st[p][i]] {
      LeafIn(st, p, st[p][i]);
    }
  }

  lemma ChopIn(st0: Store, p: nat, s: nat, b: int)
    requires 0 < p < |st0| && Tree(st0, p, 1)
    ensures In(st0[p := Chop(st0[p], s)], p, 1, 0, b) <==>
              In(st0, p, 1, 0, b) && b !in Entries(st0[p], Cap(s), PTRS)
  {
    var st := st0[p := Chop(st0[p], s)];
    LeafTree(st0, p);
    LeafIn(st0, p, b);
    LeafIn(st, p, b);
    hide Tree, In;
    if i :| 0 <= i < PTRS && st0[p][i] == b { assert i < s ==> st[p][i] == b; }
  }

  /** Some entries survive: the block is written back. */
  lemma CutLeafKeep(st0: Store, bm0: Bits, p: nat, s: nat, bm: Bits)
    requires 0 < p < |st0| <= |bm0| && Tree(st0, p, 1)
    requires Freed(bm0, bm, Entries(st0[p], Cap(s), PTRS))
    ensures Cut(st0, bm0, p, 1, s, st0[p := Chop(st0[p], s)], bm, p)
  {
    var st := st0[p := Chop(st0[p], s)];
    LeafTree(st0, p);
    LeafTree(st, p);
    LeafIn(st0, p, p);
    hide Tree, In, Entries;
    forall b ensures In(st, p, 1, 0, b) <==> In(st0, p, 1, 0, b) && b !in Entries(st0[p], Cap(s), PTRS) {
      ChopIn(st0, p, s, b);
    }
    forall b | b in Entries(st0[p], Cap(s), PTRS) ensures In(st0, p, 1, 0, b) { EntryIn(st0, p, Cap(s), b); }
    forall w: seq<nat> | PathOk(w, 1)
      ensures Walk(st, p, w) == if Off(w) >= s then 0 else Walk(st0, p, w)
      ensures SameData(st0, st, Walk(st, p, w))
    {
      LeafWalk(st0, p, w);
      LeafWalk(st, p, w);
    }
  }

  lemma EntryIn(st: Store, p: nat, lo: nat, b: int)
    requires 0 < p < |st| && Tree(st, p, 1) && b in Entries(st[p], lo, PTRS)
    ensures In(st, p, 1, 0, b)
  {
    LeafTree(st, p);
    LeafIn(st, p, b);
  }

  /** No entry survives: the block itself goes too. */
  lemma CutLeafDrop(st0: Store, bm0: Bits, p: nat, s: nat, bm: Bits)
    requires 0 < p < |st0| <= |bm0| && Tree(st0, p, 1)
    requires Freed(bm0, bm, Entries(st0[p], Cap(s), PTRS)) && Chop(st0[p], s) == ZERO_BLOCK
    ensures Cut(st0, bm0, p, 1, s, st0, bm[p := false], 0)
  {
    LeafTree(st0, p);
    forall b ensures In(st0, p, 1, 0, b) <==> b == p || b in Entries(st0[p], Cap(s), PTRS) {
      LeafIn(st0, p, b);
      if i :| 0 <= i < PTRS && st0[p][i] == b && b != 0 { assert Chop(st0[p], s)[i] == 0; }
    }
    hide In;
    forall w: seq<nat> | PathOk(w, 1) ensures Walk(st0, 0, w) == if Off(w) >= s then 0 else Walk(st0, p, w) {
      LeafWalk(st0, p, w);
      assert Chop(st0[p], s)[w[0]] == 0;
    }
  }

  // ----- One child of a higher level -----

  lemma CutStart(st: Store, bm: Bits, p: nat, k: nat, s: nat)
    requires 0 < p < |st| <= |bm| && k > 0 && Tree(st, p, k)
    ensures CutUpTo(st, bm, p, k, 0, s, st, bm)
  {
  }

  /** After child `i` was cut (`c` becomes `c'`) and the parent entry updated. */
  ghost predicate StepOk(p: nat, k: nat, i: nat, st: Store, bm: Bits, st1: Store, bm1: Bits, c': u32, st2: Store) {
    && 0 < p < |st| <= |bm| && k > 0 && i < PTRS && Tree(st, p, k)
    && Gave(st, bm, st[p][i], k - 1, st1, bm1, c')
    && st2 == st1[p := st1[p][i := c']]
  }

  lemma StepFrame(p: nat, k: nat, i: nat, st: Store, bm: Bits, st1: Store, bm1: Bits, c': u32, st2: Store)
    requires StepOk(p, k, i, st, bm, st1, bm1, c', st2)
    ensures st1[p] == st[p] && Tree(st2, c', k - 1) && Agree(st1, st2, c', k - 1)
    ensures SameIn(st1, st2, c', k - 1)
  {
    TreeDown(st, p, k, i);
    hide Tree, In;
    forall b | 0 <= b < |st1| && In(st1, c', k - 1, 1, b) ensures st2[b] == st1[b] {
      InBounds(st1, c', k - 1, 1, b);
    }
    Frame(st1, st2, c', k - 1);
  }

  lemma StepTree(p: nat, k: nat, i: nat, st: Store, bm: Bits, st1: Store, bm1: Bits, c': u32, st2: Store)
    requires StepOk(p, k, i, st, bm, st1, bm1, c', st2)
    ensures Gave(st, bm, p, k, st2, bm1, p)
    ensures forall j :: 0 <= j < PTRS && j != i ==> Agree(st, st2, st[p][j], k - 1)
    ensures st2[p] == st[p][i := c']
  {
    StepFrame(p, k, i, st, bm, st1, bm1, c', st2);
    TreeDown(st, p, k, i);
    assert In(st, p, k, 0, p);
    hide Tree, In;
    ReplaceChild(st, st2, p, k, i, {});
  }

  /** Paths not through child `i` are untouched, paths through it follow the cut child. */
  lemma StepWalk(p: nat, k: nat, i: nat, st: Store, bm: Bits, st1: Store, bm1: Bits, c': u32, st2: Store, w: seq<nat>)
    requires StepOk(p, k, i, st, bm, st1, bm1, c', st2) && PathOk(w, k)
    ensures Walk(st2, p, w) == if w[0] == i then Walk(st1, c', w[1..]) else Walk(st, p, w)
  {
    StepFrame(p, k, i, st, bm, st1, bm1, c', st2);
    StepTree(p, k, i, st, bm, st1, bm1, c', st2);
    TreeDown(st, p, k, w[0]);
    hide Tree, In, Agree;
    if w[0] == i {
      FrameWalk(st1, st2, c', k - 1, w[1..]);
    } else {
      FrameWalk(st, st2, st[p][w[0]], k - 1, w[1..]);
    }
  }

  lemma GaveTrans(st0: Store, bm0: Bits, p: nat, k: nat, st: Store, bm: Bits, st2: Store, bm2: Bits)
    requires Gave(st0, bm0, p, k, st, bm, p) && Gave(st, bm, p, k, st2, bm2, p)
    ensures Gave(st0, bm0, p, k, st2, bm2, p)
  {
    hide Tree, In;
  }

  lemma StepKeep(st0: Store, p: nat, k: nat, i: nat, st: Store, bm: Bits, st1: Store, bm1: Bits, c': u32, st2: Store, w: seq<nat>)
    requires StepOk(p, k, i, st, bm, st1, bm1, c', st2) && PathOk(w, k) && |st0| == |st|
    requires SameData(st0, st, Walk(st, p, w)) && SameData(st, st1, Walk(st1, c', w[1..]))
    requires w[0] == i ==> Walk(st1, c', w[1..]) == 0 || Walk(st1, c', w[1..]) == Walk(st, p, w)
    ensures SameData(st0, st2, Walk(st2, p, w))
  {
    StepWalk(p, k, i, st, bm, st1, bm1, c', st2, w);
    var d := Walk(st2, p, w);
    if d != 0 {
      if w[0] == i {
        WalkIn(st1, c', k - 1, w[1..]);
        TreeDown(st, p, k, i);
      } else {
        TreeDown(st, p, k, w[0]);
        WalkIn(st, st[p][w[0]], k - 1, w[1..]);
        assert !In(st, st[p][i], k - 1, 0, d) by {
          assert w[0] < i ==> Apart(st, st[p][w[0]], k - 1, st[p][i], k - 1);
          assert i < w[0] ==> Apart(st, st[p][i], k - 1, st[p][w[0]], k - 1);
        }
      }
    }
  }

  /** Cutting child `i` extends the cut from the children below `i` to those below `i + 1`. */
  lemma CutStep(st0: Store, bm0: Bits, p: nat, k: nat, i: nat, s: nat, st: Store, bm: Bits,
                st1: Store, bm1: Bits, c': u32, st2: Store)
    requires 0 < p < |st| && k > 0 && i < PTRS && CutUpTo(st0, bm0, p, k, i, s, st, bm)
    requires Cut(st, bm, st[p][i], k - 1, Rest(s, i * Span(k - 1)), st1, bm1, c')
    requires st2 == st1[p := st1[p][i := c']]
    ensures CutUpTo(st0, bm0, p, k, i + 1, s, st2, bm1)
  {
    hide Tree, In;
    assert StepOk(p, k, i, st, bm, st1, bm1, c', st2);
    hide Gave;
    StepTree(p, k, i, st, bm, st1, bm1, c', st2);
    GaveTrans(st0, bm0, p, k, st, bm, st2, bm1);
    assert |st| == |st0| by { GaveLen(st0, bm0, p, k, st, bm, p); }
    forall w: seq<nat> | PathOk(w, k)
      ensures Walk(st2, p, w) == if w[0] < i + 1 && Off(w) >= s then 0 else Walk(st0, p, w)
      ensures SameData(st0, st2, Walk(st2, p, w))
    {
      assert PathOk(w[1..], k - 1);
      StepWalk(p, k, i, st, bm, st1, bm1, c', st2, w);
      StepKeep(st0, p, k, i, st, bm, st1, bm1, c', st2, w);
    }
  }

  lemma GaveLen(st0: Store, bm0: Bits, p0: nat, k: nat, st: Store, bm: Bits, p: nat)
    requires Gave(st0, bm0, p0, k, st, bm, p)
    ensures |st| == |st0| <= |bm| == |bm0|
  {
    hide Tree, In;
  }

  /** A child that is missing or lies wholly below the cut needs no work. */
  lemma CutSkip(st0: Store, bm0: Bits, p: nat, k: nat, i: nat, s: nat, st: Store, bm: Bits)
    requires 0 < p < |st| && k > 0 && i < PTRS && CutUpTo(st0, bm0, p, k, i, s, st, bm)
    requires st[p][i] == 0 || Rest(s, i * Span(k - 1)) >= Span(k - 1)
    ensures CutUpTo(st0, bm0, p, k, i + 1, s, st, bm)
  {
    hide Tree, In;
    forall w: seq<nat> | PathOk(w, k)
      ensures Walk(st, p, w) == if w[0] < i + 1 && Off(w) >= s then 0 else Walk(st0, p, w)
    {
      OffBound(w[1..]);
    }
  }

  lemma CutAll(st0: Store, bm0: Bits, p: nat, k: nat, s: nat, st: Store, bm: Bits)
    requires CutUpTo(st0, bm0, p, k, PTRS, s, st, bm)
    ensures Cut(st0, bm0, p, k, s, st, bm, p)
  {
    hide Tree, In, Gave;
  }

  /** Nothing is left below `p`: it goes too. */
  lemma CutAllDrop(st0: Store, bm0: Bits, p: nat, k: nat, s: nat, st: Store, bm: Bits)
    requires 0 < p < |st| && CutUpTo(st0, bm0, p, k, PTRS, s, st, bm) && st[p] == ZERO_BLOCK && p < |bm|
    ensures Cut(st0, bm0, p, k, s, st, bm[p := false], 0)
  {
    ZeroTree(st, p, k);
    hide Tree, In;
    assert Tree(st, 0, k) && forall b :: !In(st, 0, k, 0, b) by { NoTree(st, k); }
    forall w: seq<nat> | PathOk(w, k) ensures Walk(st, 0, w) == if Off(w) >= s then 0 else Walk(st0, p, w) {
      assert Walk(st, p, w) == 0;
    }
  }

  lemma NoTree(st: Store, k: nat)
    ensures Tree(st, 0, k) && forall b :: !In(st, 0, k, 0, b)
  {
  }

  // ----- No empty pointer block is left where the cut reached -----

  ghost predicate Lean(st: Store, p: nat, k: nat, s: nat)
    decreases k
  {
    p == 0 || p >= |st| || k == 0 || s >= Span(k) ||
    ((exists j :: 0 <= j < PTRS && st[p][j] != 0) &&
     forall i :: 0 <= i < PTRS ==> Lean(st, st[p][i], k - 1, Rest(s, i * Span(k - 1))))
  }

  lemma {:induction false} FrameLean(st: Store, st': Store, p: nat, k: nat, s: nat)
    requires Tree(st, p, k) && Agree(st, st', p, k) && Lean(st, p, k, s)
    ensures Lean(st', p, k, s)
    decreases k
  {
    if p != 0 && k > 0 && s < Span(k) {
      forall i | 0 <= i < PTRS ensures st'[p] == st[p] && Lean(st', st'[p][i], k - 1, Rest(s, i * Span(k - 1))) {
        AgreeDown(st, st', p, k, i);
        FrameLean(st, st', st[p][i], k - 1, Rest(s, i * Span(k - 1)));
      }
    }
  }

  /** The children below `done` are lean. */
  ghost predicate LeanUpTo(st: Store, p: nat, k: nat, done: nat, s: nat) {
    0 < p < |st| && k > 0 && forall i :: 0 <= i < done && i < PTRS ==> Lean(st, st[p][i], k - 1, Rest(s, i * Span(k - 1)))
  }

  lemma LeanStep(p: nat, k: nat, i: nat, s: nat, st: Store, bm: Bits, st1: Store, bm1: Bits, c': u32, st2: Store)
    requires StepOk(p, k, i, st, bm, st1, bm1, c', st2)
    requires LeanUpTo(st, p, k, i, s) && Lean(st1, c', k - 1, Rest(s, i * Span(k - 1)))
    ensures LeanUpTo(st2, p, k, i + 1, s)
  {
    StepFrame(p, k, i, st, bm, st1, bm1, c', st2);
    StepTree(p, k, i, st, bm, st1, bm1, c', st2);
    assert Tree(st1, c', k - 1);
    FrameLean(st1, st2, c', k - 1, Rest(s, i * Span(k - 1)));
    forall j | 0 <= j < i ensures Lean(st2, st2[p][j], k - 1, Rest(s, j * Span(k - 1))) {
      TreeDown(st, p, k, j);
      FrameLean(st, st2, st[p][j], k - 1, Rest(s, j * Span(k - 1)));
    }
  }

  predicate AnyBelow(b: Block, i: nat) { exists j :: 0 <= j < i && j < PTRS && b[j] != 0 }

  lemma AnyStep(b: Block, i: nat, c: u32)
    requires i < PTRS
    ensures AnyBelow(b[i := c], i + 1) <==> AnyBelow(b, i) || c != 0
    ensures AnyBelow(b, i + 1) <==> AnyBelow(b, i) || b[i] != 0
  {
    var b' := b[i := c];
    if AnyBelow(b, i) {
      var j :| 0 <= j < i && b[j] != 0;
      assert b'[j] != 0;
    }
    assert b'[i] == c;
  }

  lemma NoneBelow(b: Block)
    ensures !AnyBelow(b, 0)
  {
  }

  lemma AnyWhole(b: Block)
    ensures AnyBelow(b, PTRS) <==> b != ZERO_BLOCK
  {
    if !AnyBelow(b, PTRS) { assert b == ZERO_BLOCK; }
  }

  lemma FreedNone(b: Block, bm: Bits, s: nat)
    requires s <= PTRS
    ensures Freed(bm, bm, Entries(b, s, s))
  {
  }

  /** The state of the loop over the children of `p`: those below `i` are done. */
  ghost predicate Cutting(st0: Store, bm0: Bits, p: nat, k: nat, i: nat, s: nat, st: Store, bm: Bits, ds: nat) {
    0 < p < |st| && CutUpTo(st0, bm0, p, k, i, s, st, bm) && LeanUpTo(st, p, k, i, s) && Held(st, p, k, bm, ds)
  }

  lemma CuttingStart(st: Store, bm: Bits, p: nat, k: nat, s: nat, ds: nat)
    requires 0 < p < |st| && k > 0 && Tree(st, p, k) && Held(st, p, k, bm, ds)
    ensures Cutting(st, bm, p, k, 0, s, st, bm, ds)
  {
    CutStart(st, bm, p, k, s);
  }

  lemma HeldSelf(st: Store, p: nat, k: nat, bm: Bits, ds: nat)
    requires 0 < p < |st| && Held(st, p, k, bm, ds)
    ensures ds <= p < |bm| && bm[p]
  {
    assert In(st, p, k, 0, p);
  }

  lemma HeldChild(st: Store, p: nat, k: nat, i: nat, bm: Bits, ds: nat)
    requires 0 < p < |st| && k > 0 && i < PTRS && Tree(st, p, k) && Held(st, p, k, bm, ds)
    ensures Tree(st, st[p][i], k - 1) && Held(st, st[p][i], k - 1, bm, ds) && st[p][i] < |st|
    ensures ds <= p && bm[p]
  {
    TreeDown(st, p, k, i);
    assert In(st, p, k, 0, p) && st[p][i] < |st|;
    hide Tree, In;
    var m := k - 1;
    forall b | In(st, st[p][i], m, 0, b) ensures ds <= b < |st| && bm[b] {
      assert In(st, p, k, 0, b);
    }
  }

  lemma CuttingChild(st0: Store, bm0: Bits, p: nat, k: nat, i: nat, s: nat, st: Store, bm: Bits, ds: nat)
    requires Cutting(st0, bm0, p, k, i, s, st, bm, ds) && i < PTRS
    ensures Tree(st, st[p][i], k - 1) && Held(st, st[p][i], k - 1, bm, ds) && st[p][i] < |st|
  {
    hide Tree, In;
    HeldChild(st, p, k, i, bm, ds);
  }

  lemma CuttingSkip(st0: Store, bm0: Bits, p: nat, k: nat, i: nat, s: nat, st: Store, bm: Bits, ds: nat)
    requires Cutting(st0, bm0, p, k, i, s, st, bm, ds) && i < PTRS
    requires st[p][i] == 0 || Rest(s, i * Span(k - 1)) >= Span(k - 1)
    ensures Cutting(st0, bm0, p, k, i + 1, s, st, bm, ds)
  {
    hide CutUpTo, Held;
    assert k > 0;
    CutSkip(st0, bm0, p, k, i, s, st, bm);
  }

  lemma CuttingStep(st0: Store, bm0: Bits, p: nat, k: nat, i: nat, s: nat, st: Store, bm: Bits, ds: nat,
                    st1: Store, bm1: Bits, c': u32, st2: Store)
    requires Cutting(st0, bm0, p, k, i, s, st, bm, ds) && i < PTRS
    requires Cut(st, bm, st[p][i], k - 1, Rest(s, i * Span(k - 1)), st1, bm1, c')
    requires Lean(st1, c', k - 1, Rest(s, i * Span(k - 1)))
    requires p < |st1| && st2 == st1[p := st1[p][i := c']]
    ensures Cutting(st0, bm0, p, k, i + 1, s, st2, bm1, ds) && st1[p] == st[p]
    ensures c' == st[p][i] ==> st2 == st1
  {
    hide Tree, In;
    assert StepOk(p, k, i, st, bm, st1, bm1, c', st2);
    hide Gave, Lean, LeanUpTo;
    CutStep(st0, bm0, p, k, i, s, st, bm, st1, bm1, c', st2);
    hide Cut, CutUpTo;
    LeanStep(p, k, i, s, st, bm, st1, bm1, c', st2);
    StepFrame(p, k, i, st, bm, st1, bm1, c', st2);
    StepTree(p, k, i, st, bm, st1, bm1, c', st2);
    HeldStep(p, k, st, bm, st2, bm1, ds);
    assert c' == st[p][i] ==> st1[p][i := c'] == st1[p];
  }

  lemma HeldStep(p: nat, k: nat, st: Store, bm: Bits, st2: Store, bm2: Bits, ds: nat)
    requires Held(st, p, k, bm, ds) && Gave(st, bm, p, k, st2, bm2, p)
    ensures Held(st2, p, k, bm2, ds) && |st2| == |st|
  {
    hide Tree, In;
  }

  /** All children are done; `any` tells whether one of them is left. */
  lemma CuttingEnd(st0: Store, bm0: Bits, p: nat, k: nat, s: nat, st: Store, bm: Bits, ds: nat, any: bool)
    requires Cutting(st0, bm0, p, k, PTRS, s, st, bm, ds)
    requires any <==> AnyBelow(st[p], PTRS)
    ensures any ==> Cut(st0, bm0, p, k, s, st, bm, p) && Lean(st, p, k, s)
    ensures !any ==> ds <= p < |bm| && bm[p] && Cut(st0, bm0, p, k, s, st, bm[p := false], 0)
  {
    hide Tree;
    assert In(st, p, k, 0, p);
    hide In;
    if any {
      CutAll(st0, bm0, p, k, s, st, bm);
    } else {
      assert st[p] == ZERO_BLOCK;
      CutAllDrop(st0, bm0, p, k, s, st, bm);
    }
  }
}
