/**
 Freeing whole trees, the way an inode is freed: the pointers on disk stay, only the bitmap changes.
 */
module Release {
  import opened BlockTree
  import opened FileTree
  import opened Accounts
  import opened Trim

  /** Exactly the blocks of the tree were freed. */
  ghost predicate TreeFreed(st: Store, p: nat, k: nat, bm0: Bits, bm: Bits) {
    |bm| == |bm0| && forall b :: 0 <= b < |bm| ==> (bm[b] <==> bm0[b] && !In(st, p, k, 0, b))
  }

  ghost predicate InChildren(st: Store, p: nat, k: nat, done: nat, b: int)
    requires p < |st| && k > 0 && done <= PTRS
  {
    exists c :: 0 <= c < done && In(st, st[p][c], k - 1, 0, b)
  }

  /** Exactly the blocks below the first `done` children of `p` were freed. */
  ghost predicate ChildrenFreed(st: Store, p: nat, k: nat, done: nat, bm0: Bits, bm: Bits)
    requires p < |st| && k > 0 && done <= PTRS
  {
    |bm| == |bm0| && forall b :: 0 <= b < |bm| ==> (bm[b] <==> bm0[b] && !InChildren(st, p, k, done, b))
  }

  /** The next child is still fully marked, so freeing it frees no block twice. */
  lemma NextChildHeld(st: Store, p: nat, k: nat, i: nat, bm0: Bits, bm: Bits, ds: nat)
    requires 0 < p < |st| && k > 0 && i < PTRS && Tree(st, p, k) && Held(st, p, k, bm0, ds)
    requires ChildrenFreed(st, p, k, i, bm0, bm)
    ensures Tree(st, st[p][i], k - 1) && Held(st, st[p][i], k - 1, bm, ds) && st[p][i] < |st|
  {
    var m := k - 1;
    HeldChild(st, p, k, i, bm0, ds);
    forall b | In(st, st[p][i], m, 0, b) ensures ds <= b < |st| && bm[b] {
      forall c | 0 <= c < i ensures !In(st, st[p][c], m, 0, b) {
        assert Apart(st, st[p][c], m, st[p][i], m);
      }
    }
  }

  lemma ChildFreed(st: Store, p: nat, k: nat, i: nat, bm0: Bits, bm: Bits, bm': Bits)
    requires 0 < p < |st| && k > 0 && i < PTRS
    requires ChildrenFreed(st, p, k, i, bm0, bm) && TreeFreed(st, st[p][i], k - 1, bm, bm')
    ensures ChildrenFreed(st, p, k, i + 1, bm0, bm')
  {
    hide In;
    forall b ensures InChildren(st, p, k, i + 1, b) <==> InChildren(st, p, k, i, b) || In(st, st[p][i], k - 1, 0, b) {
    }
  }

  lemma NoTreeFreed(st: Store, k: nat, bm: Bits)
    ensures TreeFreed(st, 0, k, bm, bm)
  {
  }

  lemma NoChildFreed(st: Store, p: nat, k: nat, bm: Bits)
    requires p < |st| && k > 0
    ensures ChildrenFreed(st, p, k, 0, bm, bm)
  {
  }

  /** All children and then `p` itself. */
  lemma WholeTreeFreed(st: Store, p: nat, k: nat, bm0: Bits, bm: Bits, ds: nat)
    requires 0 < p < |st| && k > 0 && Tree(st, p, k) && Held(st, p, k, bm0, ds)
    requires ChildrenFreed(st, p, k, PTRS, bm0, bm)
    ensures ds <= p < |bm| && bm[p] && TreeFreed(st, p, k, bm0, bm[p := false])
  {
    assert In(st, p, k, 0, p);
    forall b ensures In(st, p, k, 0, b) <==> b == p || InChildren(st, p, k, PTRS, b) {
    }
    assert !InChildren(st, p, k, PTRS, p);
  }

  lemma LeafFreed(st: Store, bm: Bits, b: nat)
    requires 0 < b < |st| && b < |bm|
    ensures TreeFreed(st, b, 0, bm, bm[b := false])
  {
  }

  // ----- The thirteen roots -----

  ghost predicate InRoots(st: Store, ptr: Roots, done: nat, b: int) {
    exists r :: 0 <= r < done && r < 13 && In(st, ptr[r], Level(r), 0, b)
  }

  ghost predicate RootsFreed(st: Store, ptr: Roots, done: nat, bm0: Bits, bm: Bits) {
    |bm| == |bm0| && forall b :: 0 <= b < |bm| ==> (bm[b] <==> bm0[b] && !InRoots(st, ptr, done, b))
  }

  lemma NoRootFreed(st: Store, ptr: Roots, bm: Bits)
    ensures RootsFreed(st, ptr, 0, bm, bm)
  {
  }

  lemma NextRootHeld(st: Store, ptr: Roots, r: nat, bm0: Bits, bm: Bits, ds: nat)
    requires r < 13 && FileOk(st, ptr) && Owned(st, ptr, bm0, ds) && 0 < ds <= |st|
    requires RootsFreed(st, ptr, r, bm0, bm)
    ensures Tree(st, ptr[r], Level(r)) && Held(st, ptr[r], Level(r), bm, ds) && ptr[r] < |st|
  {
    forall b | In(st, ptr[r], Level(r), 0, b) ensures ds <= b < |st| && bm[b] {
      assert FileIn(st, ptr, 0, b);
      forall t | 0 <= t < r ensures !In(st, ptr[t], Level(t), 0, b) {
        assert Apart(st, ptr[t], Level(t), ptr[r], Level(r));
      }
    }
  }

  lemma RootFreed(st: Store, ptr: Roots, r: nat, bm0: Bits, bm: Bits, bm': Bits)
    requires r < 13 && RootsFreed(st, ptr, r, bm0, bm) && TreeFreed(st, ptr[r], Level(r), bm, bm')
    ensures RootsFreed(st, ptr, r + 1, bm0, bm')
  {
    hide In;
    forall b ensures InRoots(st, ptr, r + 1, b) <==> InRoots(st, ptr, r, b) || In(st, ptr[r], Level(r), 0, b) {
    }
  }

  /** Freeing all thirteen trees empties the file. */
  lemma FileFreed(st: Store, ptr: Roots, bm0: Bits, bm: Bits, ds: nat)
    requires FileOk(st, ptr) && Owned(st, ptr, bm0, ds) && ds > 0 && RootsFreed(st, ptr, 13, bm0, bm)
    ensures Change(st, ptr, bm0, st, NoRoots(), bm, {})
    ensures forall n :: 0 <= n < MAX_LOGICAL ==> Lookup(st, NoRoots(), n) == 0
  {
    assert FileOk(st, NoRoots()) && forall b :: !FileIn(st, NoRoots(), 0, b);
    forall b ensures InRoots(st, ptr, 13, b) <==> FileIn(st, ptr, 0, b) {}
    hide Tree, In;
  }
}
