/**
 The pointer trees of LimnFS.

 A disk block is its 1024 little-endian 32-bit words.  A pointer `p` at level `k` is the root of a
 tree of height `k`: 0 means "no block", level 0 is a data block, and a level-k block holds 1024
 pointers of level k-1.  An inode holds thirteen roots: ten direct (level 0), one single (1), one
 double (2) and one triple (3) indirect.
 */
module BlockTree {

  type u32 = x: int | 0 <= x < 0x1_0000_0000
  type Block = b: seq<u32> | |b| == 1024 witness seq(1024, _ => 0)
  type Store = seq<Block>

  const PTRS: nat := 1024
  const ZERO_BLOCK: Block := seq(1024, _ => 0)

  // ----- Trees -----

  /** Block `b` is in the tree of `p`, at level `lo` or above (`lo == 1` leaves out data blocks). */
  ghost predicate In(st: Store, p: int, k: int, lo: int, b: int)
    decreases k
  {
    0 < p < |st| && 0 <= lo <= k &&
    (b == p || (lo < k && exists i :: 0 <= i < PTRS && In(st, st[p][i], k - 1, lo, b)))
  }

  ghost predicate Apart(st: Store, p: int, k: int, q: int, m: int) {
    forall b :: !(In(st, p, k, 0, b) && In(st, q, m, 0, b))
  }

  /** No block occurs at two places of the tree. */
  ghost predicate Tree(st: Store, p: nat, k: nat)
    decreases k
  {
    p == 0 ||
    (p < |st| &&
     (k > 0 ==>
        && (forall i :: 0 <= i < PTRS ==> Tree(st, st[p][i], k - 1) && !In(st, st[p][i], k - 1, 0, p))
        && (forall i, j :: 0 <= i < j < PTRS ==> Apart(st, st[p][i], k - 1, st[p][j], k - 1))))
  }

  /** Follows `path` down from `p`; 0 when a pointer on the way is missing. */
  function Walk(st: Store, p: nat, path: seq<nat>): nat
    decreases |path|
  {
    if p == 0 || path == [] then p
    else if p >= |st| || path[0] >= PTRS then 0
    else Walk(st, st[p][path[0]], path[1..])
  }

  lemma {:induction false} WalkStep(st: Store, p: nat, path: seq<nat>, i: nat)
    requires 0 < Walk(st, p, path) < |st| && i < PTRS
    ensures Walk(st, p, path + [i]) == st[Walk(st, p, path)][i]
    decreases |path|
  {
    if path != [] {
      WalkStep(st, st[p][path[0]], path[1..], i);
      assert (path + [i])[1..] == path[1..] + [i];
    }
  }

  lemma WalkOne(st: Store, p: nat, a: nat)
    requires p < |st| && a < PTRS
    ensures Walk(st, p, [a]) == if p == 0 then 0 else st[p][a]
  {
  }

  lemma WalkTwo(st: Store, p: nat, a: nat, b: nat)
    requires 0 < p < |st| && a < PTRS && st[p][a] < |st| && b < PTRS
    ensures Walk(st, p, [a, b]) == if st[p][a] == 0 then 0 else st[st[p][a]][b]
  {
    assert [a, b][1..] == [b];
    WalkOne(st, st[p][a], b);
  }

  lemma WalkThree(st: Store, p: nat, a: nat, b: nat, c: nat)
    requires 0 < p < |st| && a < PTRS && b < PTRS && c < PTRS
    ensures Walk(st, p, [a, b, c]) == Walk(st, st[p][a], [b, c])
  {
    assert [a, b, c][1..] == [b, c];
  }

  lemma {:induction false} InBounds(st: Store, p: nat, k: nat, lo: int, b: int)
    requires In(st, p, k, lo, b)
    ensures 0 < b < |st| && In(st, p, k, 0, b)
    decreases k
  {
    if b != p {
      var i :| 0 <= i < PTRS && In(st, st[p][i], k - 1, lo, b);
      InBounds(st, st[p][i], k - 1, lo, b);
    }
  }

  /** Both stores agree on the pointer blocks of the tree. */
  ghost predicate Agree(st: Store, st': Store, p: nat, k: nat) {
    |st| == |st'| && forall b :: 0 <= b < |st| && In(st, p, k, 1, b) ==> st'[b] == st[b]
  }

  ghost predicate SameIn(st: Store, st': Store, p: nat, k: nat) {
    forall lo, b :: In(st', p, k, lo, b) <==> In(st, p, k, lo, b)
  }

  lemma AgreeDown(st: Store, st': Store, p: nat, k: nat, i: nat)
    requires 0 < p < |st| && k > 0 && i < PTRS && Agree(st, st', p, k)
    ensures st'[p] == st[p] && Agree(st, st', st[p][i], k - 1)
  {
    assert In(st, p, k, 1, p);
  }

  /** A tree depends only on the contents of its pointer blocks. */
  lemma {:induction false} Frame(st: Store, st': Store, p: nat, k: nat)
    requires Tree(st, p, k) && Agree(st, st', p, k)
    ensures Tree(st', p, k) && SameIn(st, st', p, k)
    decreases k
  {
    if p != 0 && k > 0 {
      forall i | 0 <= i < PTRS
        ensures st'[p] == st[p] && Tree(st', st'[p][i], k - 1) && SameIn(st, st', st[p][i], k - 1)
      {
        AgreeDown(st, st', p, k, i);
        Frame(st, st', st[p][i], k - 1);
      }
    }
  }

  lemma {:induction false} FrameWalk(st: Store, st': Store, p: nat, k: nat, path: seq<nat>)
    requires Tree(st, p, k) && Agree(st, st', p, k) && |path| <= k
    ensures Walk(st', p, path) == Walk(st, p, path)
    decreases k
  {
    if p != 0 && path != [] && path[0] < PTRS {
      AgreeDown(st, st', p, k, path[0]);
      FrameWalk(st, st', st[p][path[0]], k - 1, path[1..]);
    }
  }

  lemma Siblings(st: Store, p: nat, k: nat, i: nat, j: nat, b: int)
    requires 0 < p < |st| && k > 0 && Tree(st, p, k) && i < PTRS && j < PTRS
    requires In(st, st[p][i], k - 1, 0, b) && In(st, st[p][j], k - 1, 0, b)
    ensures i == j
  {
    assert i < j ==> Apart(st, st[p][i], k - 1, st[p][j], k - 1);
    assert j < i ==> Apart(st, st[p][j], k - 1, st[p][i], k - 1);
  }

  /** What a path reaches is a block of the tree, and a full path reaches a data block. */
  lemma {:induction false} WalkIn(st: Store, p: nat, k: nat, path: seq<nat>)
    requires Tree(st, p, k) && |path| <= k && Walk(st, p, path) != 0
    ensures In(st, p, k, 0, Walk(st, p, path))
    ensures |path| == k ==> !In(st, p, k, 1, Walk(st, p, path))
    decreases k
  {
    if path != [] {
      var i, w := path[0], Walk(st, p, path);
      WalkIn(st, st[p][i], k - 1, path[1..]);
      forall j | 0 <= j < PTRS && In(st, st[p][j], k - 1, 1, w) ensures j == i {
        InBounds(st, st[p][j], k - 1, 1, w);
        Siblings(st, p, k, i, j, w);
      }
    }
  }

  /** Two different paths never reach the same block. */
  lemma {:induction false} WalkInjective(st: Store, p: nat, k: nat, a: seq<nat>, b: seq<nat>)
    requires Tree(st, p, k) && |a| <= k && |b| <= k && a != b
    requires Walk(st, p, a) != 0
    ensures Walk(st, p, a) != Walk(st, p, b)
    decreases k
  {
    if Walk(st, p, b) == 0 {
    } else if a == [] {
      WalkIn(st, st[p][b[0]], k - 1, b[1..]);
    } else if b == [] {
      WalkIn(st, st[p][a[0]], k - 1, a[1..]);
    } else if a[0] == b[0] {
      assert a == [a[0]] + a[1..] && b == [b[0]] + b[1..];
      WalkInjective(st, st[p][a[0]], k - 1, a[1..], b[1..]);
    } else {
      WalkIn(st, st[p][a[0]], k - 1, a[1..]);
      WalkIn(st, st[p][b[0]], k - 1, b[1..]);
      if Walk(st, p, a) == Walk(st, p, b) { Siblings(st, p, k, a[0], b[0], Walk(st, p, a)); }
    }
  }

  /**
   Replacing one child subtree, when the new subtree uses only blocks of the old one and blocks in
   `extra`, which the whole tree does not use: the rest of the tree is untouched.
   */
  lemma ReplaceChild(st: Store, st': Store, p: nat, k: nat, i: nat, extra: set<nat>)
    requires 0 < p < |st| == |st'| && k > 0 && i < PTRS && Tree(st, p, k)
    requires st'[p] == st[p][i := st'[p][i]]
    requires forall b :: 0 <= b < |st| && st'[b] != st[b] ==> b == p || b in extra || In(st, st[p][i], k - 1, 0, b)
    requires forall b :: b in extra ==> !In(st, p, k, 0, b)
    requires Tree(st', st'[p][i], k - 1)
    requires forall b :: In(st', st'[p][i], k - 1, 0, b) ==> b in extra || In(st, st[p][i], k - 1, 0, b)
    ensures Tree(st', p, k)
    ensures forall b :: In(st', p, k, 0, b) <==>
              (In(st, p, k, 0, b) && !In(st, st[p][i], k - 1, 0, b)) || In(st', st'[p][i], k - 1, 0, b)
    ensures forall j :: 0 <= j < PTRS && j != i ==> Agree(st, st', st[p][j], k - 1)
  {
    forall j | 0 <= j < PTRS && j != i
      ensures Agree(st, st', st[p][j], k - 1)
      ensures Tree(st', st[p][j], k - 1) && SameIn(st, st', st[p][j], k - 1)
    {
      SiblingAgrees(st, st', p, k, i, j, extra);
      Frame(st, st', st[p][j], k - 1);
    }
    var m := k - 1;
    assert In(st, p, k, 0, p);
    forall j | 0 <= j < PTRS ensures Tree(st', st'[p][j], m) && !In(st', st'[p][j], m, 0, p) {
      assert !In(st, st[p][j], m, 0, p);
    }
    forall a, c | 0 <= a < c < PTRS ensures Apart(st', st'[p][a], m, st'[p][c], m) {
      assert Apart(st, st[p][a], m, st[p][c], m);
      var o := if a == i then c else a;
      assert forall b :: In(st', st'[p][o], m, 0, b) ==> In(st, p, k, 0, b);
    }
    forall b ensures In(st', p, k, 0, b) <==>
              (In(st, p, k, 0, b) && !In(st, st[p][i], k - 1, 0, b)) || In(st', st'[p][i], k - 1, 0, b)
    {
      if j :| 0 <= j < PTRS && j != i && In(st, st[p][j], k - 1, 0, b) {
        assert In(st', st'[p][j], k - 1, 0, b);
      }
    }
  }

  lemma SiblingAgrees(st: Store, st': Store, p: nat, k: nat, i: nat, j: nat, extra: set<nat>)
    requires 0 < p < |st| == |st'| && k > 0 && i < PTRS && j < PTRS && i != j && Tree(st, p, k)
    requires forall b :: 0 <= b < |st| && st'[b] != st[b] ==> b == p || b in extra || In(st, st[p][i], k - 1, 0, b)
    requires forall b :: b in extra ==> !In(st, p, k, 0, b)
    ensures Agree(st, st', st[p][j], k - 1)
  {
    forall b | 0 <= b < |st| && In(st, st[p][j], k - 1, 1, b) ensures st'[b] == st[b] {
      InBounds(st, st[p][j], k - 1, 1, b);
      if In(st, st[p][i], k - 1, 0, b) { Siblings(st, p, k, i, j, b); }
      assert In(st, p, k, 0, b);
    }
  }

  /** A zeroed block, or any block at level 0, is a tree by itself. */
  lemma ZeroTree(st: Store, v: nat, k: nat)
    requires 0 < v < |st| && (k > 0 ==> st[v] == ZERO_BLOCK)
    ensures Tree(st, v, k) && forall b :: In(st, v, k, 0, b) <==> b == v
    ensures forall w: seq<nat> :: 0 < |w| <= k ==> Walk(st, v, w) == 0
  {
    if k > 0 {
      var m := k - 1;
      forall i | 0 <= i < PTRS ensures Tree(st, st[v][i], m) && forall b :: !In(st, st[v][i], m, 0, b) {
        assert st[v][i] == 0;
      }
    }
  }

  /** Block `v` has joined the tree at path `at`: exactly that path changed its meaning. */
  ghost predicate Attached(st: Store, st': Store, p: nat, k: nat, at: seq<nat>, v: nat) {
    && Tree(st', p, k)
    && (forall b :: In(st', p, k, 0, b) <==> In(st, p, k, 0, b) || b == v)
    && (forall w: seq<nat> :: |w| <= k ==> Walk(st', p, w) == if w == at then v else Walk(st, p, w))
  }

  /** Storing `v` in the free slot `i` of the root block. */
  lemma AttachHere(st: Store, st': Store, p: nat, k: nat, i: nat, v: u32)
    requires 0 < p < |st| && k > 0 && Tree(st, p, k) && i < PTRS && 0 < v < |st|
    requires !In(st, p, k, 0, v) && st[p][i] == 0 && (k > 1 ==> st[v] == ZERO_BLOCK)
    requires st' == st[p := st[p][i := v]]
    ensures Attached(st, st', p, k, [i], v)
  {
    assert In(st, p, k, 0, p);
    ZeroTree(st', v, k - 1);
    ReplaceChild(st, st', p, k, i, {v});
    forall w: seq<nat> | |w| <= k ensures Walk(st', p, w) == if w == [i] then v else Walk(st, p, w) {
      if w != [] && w[0] < PTRS && w[0] != i {
        FrameWalk(st, st', st[p][w[0]], k - 1, w[1..]);
      } else if w != [] && w[0] == i {
        assert w == [i] <==> w[1..] == [];
      }
    }
  }

  lemma AttachBelow(st: Store, st': Store, p: nat, k: nat, at: seq<nat>, v: u32)
    requires 0 < p < |st| == |st'| && k > 0 && Tree(st, p, k) && at != [] && at[0] < PTRS && st'[p] == st[p]
    requires forall b :: 0 <= b < |st| && st'[b] != st[b] ==> In(st, st[p][at[0]], k - 1, 0, b)
    requires !In(st, p, k, 0, v) && Attached(st, st', st[p][at[0]], k - 1, at[1..], v)
    ensures Attached(st, st', p, k, at, v)
  {
    var c := at[0];
    ReplaceChild(st, st', p, k, c, {v});
    forall w: seq<nat> | |w| <= k ensures Walk(st', p, w) == if w == at then v else Walk(st, p, w) {
      if w != [] && w[0] < PTRS && w[0] != c {
        FrameWalk(st, st', st[p][w[0]], k - 1, w[1..]);
      } else if w != [] && w[0] == c {
        assert w == at <==> w[1..] == at[1..] by { assert w == [c] + w[1..] && at == [c] + at[1..]; }
      }
    }
  }

  lemma TreeDown(st: Store, p: nat, k: nat, i: nat)
    requires 0 < p < |st| && k > 0 && i < PTRS && Tree(st, p, k)
    ensures Tree(st, st[p][i], k - 1) && !In(st, st[p][i], k - 1, 0, p)
    ensures forall b :: In(st, st[p][i], k - 1, 0, b) ==> In(st, p, k, 0, b)
  {
  }

  /** A path into a subtree ends at a block of that subtree. */
  lemma WalkDown(st: Store, p: nat, k: nat, path: seq<nat>)
    requires Tree(st, p, k) && 0 < |path| < k && Walk(st, p, path) != 0
    ensures 0 < p < |st| && path[0] < PTRS && Tree(st, st[p][path[0]], k - 1)
    ensures In(st, st[p][path[0]], k - 1, 0, Walk(st, p, path)) && Walk(st, p, path) != p
    ensures forall b :: In(st, st[p][path[0]], k - 1, 0, b) ==> In(st, p, k, 0, b)
  {
    TreeDown(st, p, k, path[0]);
    hide Tree;
    WalkIn(st, st[p][path[0]], k - 1, path[1..]);
  }

  /**
   Storing `v` in a free pointer slot: `path` leads to the pointer block, `i` is the slot in it.
   Exactly one path changes its meaning and exactly one block joins the tree.
   */
  lemma {:induction false} Attach(st: Store, st': Store, p: nat, k: nat, path: seq<nat>, i: nat, v: u32, q: nat)
    requires Tree(st, p, k) && |path| < k && i < PTRS && 0 < v < |st| && !In(st, p, k, 0, v)
    requires 0 < q < |st| && q == Walk(st, p, path)
    requires st[q][i] == 0 && (|path| + 1 < k ==> st[v] == ZERO_BLOCK) && st' == st[q := st[q][i := v]]
    ensures Attached(st, st', p, k, path + [i], v)
    decreases k
  {
    hide Attached;
    assert path == [] ==> path + [i] == [i];
    if path == [] {
      AttachHere(st, st', p, k, i, v);
    } else {
      var c, rest := path[0], path[1..];
      WalkDown(st, p, k, path);
      assert q == Walk(st, st[p][c], rest);
      hide Tree, In, Walk;
      Attach(st, st', st[p][c], k - 1, rest, i, v, q);
      assert (path + [i])[1..] == rest + [i];
      AttachBelow(st, st', p, k, path + [i], v);
    }
  }
}
