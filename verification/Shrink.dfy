/**
 Truncating a whole file: the thirteen trees are cut one after the other.
 */
module Shrink {
  import opened BlockTree
  import opened FileTree
  import opened Accounts
  import opened Trim

  /** The first logical block below root `r`. */
  function Base(r: nat): nat {
    if r <= SINGLE then r else if r == DOUBLE then DOUBLE_BASE else TRIPLE_BASE
  }

  lemma SlotOff(n: nat)
    requires n < MAX_LOGICAL
    ensures PathOk(SlotOf(n).path, Level(SlotOf(n).root))
    ensures n == Base(SlotOf(n).root) + Off(SlotOf(n).path)
  {
    var w := SlotOf(n).path;
    assert Span(1) == 1024 && Span(2) == 1048576;
    assert |w| >= 1 ==> w[1..] == if |w| == 1 then [] else if |w| == 2 then [w[1]] else [w[1], w[2]];
    assert |w| == 3 ==> Off([w[1], w[2]]) == w[1] * 1024 + Off([w[2]]) by { assert |w| == 3 ==> [w[1], w[2]][1..] == [w[2]]; }
    assert |w| == 3 ==> Off([w[2]]) == w[2];
    assert |w| == 2 ==> Off([w[1]]) == w[1];
  }

  /** The roots below `r` have been cut at logical block `nb`. */
  ghost predicate Shrinking(st0: Store, ptr0: Roots, bm0: Bits, nb: nat, r: nat, st: Store, ptr: Roots, bm: Bits, ds: nat) {
    && Change(st0, ptr0, bm0, st, ptr, bm, {}) && Owned(st, ptr, bm, ds)
    && (forall b :: FileIn(st, ptr, 0, b) ==> FileIn(st0, ptr0, 0, b))
    && (forall n :: 0 <= n < MAX_LOGICAL ==>
          && Lookup(st, ptr, n) == (if SlotOf(n).root < r && n >= nb then 0 else Lookup(st0, ptr0, n))
          && SameData(st0, st, Lookup(st, ptr, n)))
    && (forall s :: 0 <= s < r && s < 13 ==> Lean(st, ptr[s], Level(s), Rest(nb, Base(s))))
  }

  lemma ShrinkStart(st: Store, ptr: Roots, bm: Bits, nb: nat, ds: nat)
    requires FileOk(st, ptr) && Owned(st, ptr, bm, ds) && ds > 0
    ensures Shrinking(st, ptr, bm, nb, if nb < DIRECT then nb else DIRECT, st, ptr, bm, ds)
  {
    hide Tree, In, FileOk;
    forall n | 0 <= n < MAX_LOGICAL
      ensures SlotOf(n).root < (if nb < DIRECT then nb else DIRECT) && n >= nb ==> Lookup(st, ptr, n) == 0
    {
    }
  }

  lemma RootHeld(st: Store, ptr: Roots, bm: Bits, ds: nat, r: nat)
    requires FileOk(st, ptr) && Owned(st, ptr, bm, ds) && 0 < ds <= |st| && r < 13
    ensures Tree(st, ptr[r], Level(r)) && Held(st, ptr[r], Level(r), bm, ds) && (ptr[r] != 0 ==> ds <= ptr[r] < |st|)
  {
    forall b | In(st, ptr[r], Level(r), 0, b) ensures ds <= b < |st| && bm[b] {
      assert FileIn(st, ptr, 0, b);
    }
    assert ptr[r] != 0 ==> In(st, ptr[r], Level(r), 0, ptr[r]);
  }

  /** One cut tree, seen from the file. */
  lemma CutFile(st: Store, ptr: Roots, bm: Bits, ds: nat, r: nat, s: nat, st': Store, q: u32, bm': Bits)
    requires FileOk(st, ptr) && Owned(st, ptr, bm, ds) && r < 13
    requires Cut(st, bm, ptr[r], Level(r), s, st', bm', q)
    ensures FileOk(st', ptr[r := q]) && Owned(st', ptr[r := q], bm', ds)
    ensures forall b :: FileIn(st', ptr[r := q], 0, b) <==>
              FileIn(st, ptr, 0, b) && (In(st, ptr[r], Level(r), 0, b) ==> In(st', q, Level(r), 0, b))
    ensures forall t :: 0 <= t < 13 && t != r ==> Agree(st, st', ptr[t], Level(t))
  {
    hide Tree;
    assert forall b :: In(st, ptr[r], Level(r), 0, b) ==> FileIn(st, ptr, 0, b);
    hide In, FileIn;
    ReplaceRoot(st, st', ptr, r, q, {});
  }

  lemma ShrinkChange(st0: Store, ptr0: Roots, bm0: Bits, st: Store, ptr: Roots, bm: Bits, ds: nat,
                     r: nat, s: nat, st': Store, q: u32, bm': Bits)
    requires Change(st0, ptr0, bm0, st, ptr, bm, {}) && Owned(st, ptr, bm, ds) && r < 13
    requires forall b :: FileIn(st, ptr, 0, b) ==> FileIn(st0, ptr0, 0, b)
    requires Cut(st, bm, ptr[r], Level(r), s, st', bm', q)
    ensures Change(st0, ptr0, bm0, st', ptr[r := q], bm', {})
    ensures forall b :: FileIn(st', ptr[r := q], 0, b) ==> FileIn(st0, ptr0, 0, b)
  {
    hide Tree;
    CutFile(st, ptr, bm, ds, r, s, st', q, bm');
    assert forall b :: In(st, ptr[r], Level(r), 0, b) ==> FileIn(st, ptr, 0, b);
    hide In, FileIn, FileOk;
  }

  lemma ShrinkLookup(st: Store, ptr: Roots, bm: Bits, ds: nat, nb: nat, r: nat, st': Store, q: u32, bm': Bits, n: nat)
    requires FileOk(st, ptr) && Owned(st, ptr, bm, ds) && r < 13 && n < MAX_LOGICAL
    requires Cut(st, bm, ptr[r], Level(r), Rest(nb, Base(r)), st', bm', q)
    ensures Lookup(st', ptr[r := q], n) == if SlotOf(n).root == r && n >= nb then 0 else Lookup(st, ptr, n)
    ensures SameData(st, st', Lookup(st', ptr[r := q], n))
  {
    CutFile(st, ptr, bm, ds, r, Rest(nb, Base(r)), st', q, bm');
    hide Tree;
    var t := SlotOf(n).root;
    SlotOff(n);
    hide Walk, Off, SlotOf;
    if t != r {
      AtElsewhere(st, st', ptr, r, q);
      var d := Lookup(st, ptr, n);
      if d != 0 {
        WalkIn(st, ptr[t], Level(t), SlotOf(n).path);
        if In(st, ptr[r], Level(r), 0, d) { Roots2(st, ptr, t, r, d); }
      }
    }
  }

  lemma ShrinkLean(st: Store, ptr: Roots, nb: nat, r: nat, st': Store, q: u32)
    requires FileOk(st, ptr) && r < 13
    requires forall t :: 0 <= t < 13 && t != r ==> Agree(st, st', ptr[t], Level(t))
    requires forall s :: 0 <= s < r ==> Lean(st, ptr[s], Level(s), Rest(nb, Base(s)))
    requires Lean(st', q, Level(r), Rest(nb, Base(r)))
    ensures forall s :: 0 <= s < r + 1 ==> Lean(st', ptr[r := q][s], Level(s), Rest(nb, Base(s)))
  {
    hide Tree, Lean, Agree;
    forall s | 0 <= s < r ensures Lean(st', ptr[s], Level(s), Rest(nb, Base(s))) {
      FrameLean(st, st', ptr[s], Level(s), Rest(nb, Base(s)));
    }
  }

  lemma ShrinkStep(st0: Store, ptr0: Roots, bm0: Bits, nb: nat, r: nat, st: Store, ptr: Roots, bm: Bits, ds: nat,
                   st': Store, q: u32, bm': Bits)
    requires Shrinking(st0, ptr0, bm0, nb, r, st, ptr, bm, ds) && r < 13
    requires Cut(st, bm, ptr[r], Level(r), Rest(nb, Base(r)), st', bm', q)
    requires Lean(st', q, Level(r), Rest(nb, Base(r)))
    ensures Shrinking(st0, ptr0, bm0, nb, r + 1, st', ptr[r := q], bm', ds)
  {
    hide Tree, In, FileIn, FileOk, SlotOf, Walk, Lean, Cut;
    CutFile(st, ptr, bm, ds, r, Rest(nb, Base(r)), st', q, bm');
    ShrinkChange(st0, ptr0, bm0, st, ptr, bm, ds, r, Rest(nb, Base(r)), st', q, bm');
    ShrinkLean(st, ptr, nb, r, st', q);
    forall n | 0 <= n < MAX_LOGICAL
      ensures Lookup(st', ptr[r := q], n) == (if SlotOf(n).root < r + 1 && n >= nb then 0 else Lookup(st0, ptr0, n))
      ensures SameData(st0, st', Lookup(st', ptr[r := q], n))
    {
      ShrinkLookup(st, ptr, bm, ds, nb, r, st', q, bm', n);
    }
  }

  /** An empty tree needs no cutting. */
  lemma ShrinkSkip(st0: Store, ptr0: Roots, bm0: Bits, nb: nat, r: nat, st: Store, ptr: Roots, bm: Bits, ds: nat)
    requires Shrinking(st0, ptr0, bm0, nb, r, st, ptr, bm, ds) && r < 13 && ptr[r] == 0
    ensures Shrinking(st0, ptr0, bm0, nb, r + 1, st, ptr, bm, ds)
  {
    assert Cut(st, bm, 0, Level(r), Rest(nb, Base(r)), st, bm, 0);
    hide Tree, In, FileIn, FileOk, SlotOf, Walk, Cut;
    ShrinkStep(st0, ptr0, bm0, nb, r, st, ptr, bm, ds, st, 0, bm);
    assert ptr[r := 0] == ptr;
  }

  /** A direct pointer beyond the end is freed. */
  lemma CutDirect(st: Store, bm: Bits, p: nat)
    requires 0 < p < |st| <= |bm| && bm[p]
    ensures Cut(st, bm, p, 0, 0, st, bm[p := false], 0)
  {
  }

  // ----- Result -----

  /** The logical map is unchanged below `nb` and empty from there on; kept blocks keep their contents. */
  ghost predicate MapCutAt(st0: Store, ptr0: Roots, nb: nat, st: Store, ptr: Roots) {
    forall n :: 0 <= n < MAX_LOGICAL ==>
      Lookup(st, ptr, n) == (if n >= nb then 0 else Lookup(st0, ptr0, n)) && SameData(st0, st, Lookup(st, ptr, n))
  }

  ghost predicate LeanFile(st: Store, ptr: Roots, nb: nat) {
    forall s :: 0 <= s < 13 ==> Lean(st, ptr[s], Level(s), Rest(nb, Base(s)))
  }

  lemma ShrinkingRoot(st0: Store, ptr0: Roots, bm0: Bits, nb: nat, r: nat, st: Store, ptr: Roots, bm: Bits, ds: nat)
    requires Shrinking(st0, ptr0, bm0, nb, r, st, ptr, bm, ds) && r < 13 && ptr[r] != 0 && 0 < ds <= |st|
    ensures Tree(st, ptr[r], Level(r)) && Held(st, ptr[r], Level(r), bm, ds)
    ensures ds <= ptr[r] < |st| <= |bm| && bm[ptr[r]]
  {
    hide Tree;
    RootHeld(st, ptr, bm, ds, r);
    assert In(st, ptr[r], Level(r), 0, ptr[r]);
  }

  lemma LeanLeaf(st: Store, p: nat, s: nat)
    ensures Lean(st, p, 0, s)
  {
  }

  lemma ShrinkEnd(st0: Store, ptr0: Roots, bm0: Bits, nb: nat, st: Store, ptr: Roots, bm: Bits, ds: nat)
    requires Shrinking(st0, ptr0, bm0, nb, 13, st, ptr, bm, ds)
    ensures Change(st0, ptr0, bm0, st, ptr, bm, {}) && MapCutAt(st0, ptr0, nb, st, ptr) && LeanFile(st, ptr, nb)
  {
    hide Tree, In, FileIn, FileOk, Walk, Lean;
  }
}
