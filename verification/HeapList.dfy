/**
 The user heap as a list of blocks in mapping order: what splitting, merging and appending do to
 the list, and how the headers linked in memory represent it.
 */
module HeapList {

  const HEADER: nat := 32
  const LEAST: nat := 48
  const WORD: nat := 0x1_0000_0000_0000_0000
  const TOP: nat := 0x8000_0000_0000_0000

  datatype Blk = Blk(addr: nat, size: nat, free: bool)

  // ---- Block lists ----

  predicate Apart(a: Blk, b: Blk) {
    a.addr + a.size <= b.addr || b.addr + b.size <= a.addr
  }

  predicate Sound(b: Blk) {
    b.addr > 0 && b.addr % 16 == 0 && b.size % 16 == 0 && b.size >= LEAST && b.addr + b.size <= TOP
  }

  predicate Touch(a: Blk, b: Blk) {
    a.addr + a.size == b.addr
  }

  /** Blocks are sound and pairwise disjoint. */
  predicate Tidy(bs: seq<Blk>) {
    && (forall k :: 0 <= k < |bs| ==> Sound(bs[k]))
    && (forall j, k :: 0 <= j < k < |bs| ==> Apart(bs[j], bs[k]))
  }

  /** Neighbours in the list that also touch in memory are not both free. */
  predicate Merged(bs: seq<Blk>) {
    forall k, k' :: 0 <= k < |bs| && 0 <= k' < |bs| && k' == k + 1 ==> !(bs[k].free && bs[k'].free && Touch(bs[k], bs[k']))
  }

  function Total(bs: seq<Blk>): nat {
    if bs == [] then 0 else bs[0].size + Total(bs[1..])
  }

  /** The blocks in use with their sizes. */
  ghost predicate Live(bs: seq<Blk>, a: nat, size: nat) {
    exists k :: 0 <= k < |bs| && bs[k] == Blk(a, size, false)
  }

  ghost predicate Used(bs: seq<Blk>, a: nat) {
    exists n :: Live(bs, a, n)
  }

  // ---- The list operations ----

  /** Block `k` cut to `t` bytes; the rest becomes a free block behind it. */
  function SplitAt(bs: seq<Blk>, k: nat, t: nat): (r: seq<Blk>)
    requires k < |bs| && t <= bs[k].size
    ensures |r| == |bs| + 1
  {
    bs[..k] + [bs[k].(size := t), Blk(bs[k].addr + t, bs[k].size - t, true)] + bs[k + 1..]
  }

  /** Block `k` takes over block `k + 1`. */
  function MergeAt(bs: seq<Blk>, k: nat): (r: seq<Blk>)
    requires k + 1 < |bs|
    ensures |r| == |bs| - 1
  {
    bs[..k] + [bs[k].(size := bs[k].size + bs[k + 1].size)] + bs[k + 2..]
  }

  lemma SplitElems(bs: seq<Blk>, k: nat, t: nat)
    requires k < |bs| && t <= bs[k].size
    ensures var r := SplitAt(bs, k, t);
      && r[k] == bs[k].(size := t) && r[k + 1] == Blk(bs[k].addr + t, bs[k].size - t, true)
      && (forall j :: 0 <= j < k ==> r[j] == bs[j])
      && (forall j :: k + 1 < j < |r| ==> r[j] == bs[j - 1])
  {
  }

  lemma MergeElems(bs: seq<Blk>, k: nat)
    requires k + 1 < |bs|
    ensures var r := MergeAt(bs, k);
      && r[k] == bs[k].(size := bs[k].size + bs[k + 1].size)
      && (forall j :: 0 <= j < k ==> r[j] == bs[j])
      && (forall j :: k < j < |r| ==> r[j] == bs[j + 1])
  {
  }

  function Marked(bs: seq<Blk>, k: nat, free: bool): (r: seq<Blk>)
    requires k < |bs|
    ensures |r| == |bs|
  {
    bs[k := bs[k].(free := free)]
  }

  lemma {:induction false} TotalConcat(a: seq<Blk>, b: seq<Blk>)
    ensures Total(a + b) == Total(a) + Total(b)
    decreases |a|
  {
    if a == [] {
      assert a + b == b;
    } else {
      TotalConcat(a[1..], b);
      assert (a + b)[1..] == a[1..] + b;
    }
  }

  lemma TotalAround(bs: seq<Blk>, k: nat, mid: seq<Blk>, n: nat)
    requires k + n <= |bs|
    ensures Total(bs[..k] + mid + bs[k + n..]) == Total(bs) - Total(bs[k..k + n]) + Total(mid)
  {
    TotalConcat(bs[..k] + mid, bs[k + n..]);
    TotalConcat(bs[..k], mid);
    assert bs == bs[..k] + bs[k..k + n] + bs[k + n..];
    TotalConcat(bs[..k] + bs[k..k + n], bs[k + n..]);
    TotalConcat(bs[..k], bs[k..k + n]);
  }

  lemma TotalOne(b: Blk)
    ensures Total([b]) == b.size
  {
  }

  lemma TotalTwo(a: Blk, b: Blk)
    ensures Total([a, b]) == a.size + b.size
  {
    assert [a, b] == [a] + [b];
    TotalConcat([a], [b]);
  }

  lemma TotalPair(bs: seq<Blk>, k: nat)
    requires k + 1 < |bs|
    ensures Total(bs[k..k + 2]) == bs[k].size + bs[k + 1].size
  {
    assert bs[k..k + 2] == [bs[k], bs[k + 1]];
    TotalTwo(bs[k], bs[k + 1]);
  }

  lemma MergeTotal(bs: seq<Blk>, k: nat)
    requires k + 1 < |bs|
    ensures Total(MergeAt(bs, k)) == Total(bs)
  {
    hide Total;
    TotalAround(bs, k, [bs[k].(size := bs[k].size + bs[k + 1].size)], 2);
    TotalOne(bs[k].(size := bs[k].size + bs[k + 1].size));
    TotalPair(bs, k);
  }

  /** Merging undoes splitting. */
  lemma MergeSplit(bs: seq<Blk>, k: nat, t: nat)
    requires k < |bs| && t <= bs[k].size
    ensures MergeAt(SplitAt(bs, k, t), k) == bs
  {
    SplitElems(bs, k, t);
    MergeElems(SplitAt(bs, k, t), k);
    hide SplitAt, MergeAt;
    var r := MergeAt(SplitAt(bs, k, t), k);
    forall j | 0 <= j < |bs| ensures r[j] == bs[j] {
      var n := j + 1;
      assert j > k ==> SplitAt(bs, k, t)[n] == bs[j];
    }
  }

  lemma SplitTotal(bs: seq<Blk>, k: nat, t: nat)
    requires k < |bs| && t <= bs[k].size
    ensures Total(SplitAt(bs, k, t)) == Total(bs)
  {
    hide Total, SplitAt, MergeAt;
    MergeSplit(bs, k, t);
    MergeTotal(SplitAt(bs, k, t), k);
  }

  lemma MarkTotal(bs: seq<Blk>, k: nat, free: bool)
    requires k < |bs|
    ensures Total(Marked(bs, k, free)) == Total(bs)
  {
    hide Total;
    var x := bs[k].(free := free);
    TotalAround(bs, k, [x], 1);
    TotalOne(x);
    assert bs[k..k + 1] == [bs[k]];
    TotalOne(bs[k]);
    assert Marked(bs, k, free) == bs[..k] + [x] + bs[k + 1..];
  }

  // ---- What they keep ----

  lemma SplitSound(b: Blk, t: nat)
    requires Sound(b) && t % 16 == 0 && LEAST <= t && t + LEAST <= b.size
    ensures Sound(b.(size := t)) && Sound(Blk(b.addr + t, b.size - t, true))
  {
    assert (b.addr + t) % 16 == 0 && (b.size - t) % 16 == 0;
  }

  lemma SplitTidy(bs: seq<Blk>, k: nat, t: nat)
    requires Tidy(bs) && k < |bs| && t % 16 == 0 && LEAST <= t && t + LEAST <= bs[k].size
    ensures Tidy(SplitAt(bs, k, t))
  {
    var r := SplitAt(bs, k, t);
    SplitElems(bs, k, t);
    assert Sound(bs[k]);
    hide Sound, SplitAt;
    SplitSound(bs[k], t);
    forall i, j | 0 <= i < j < |r| ensures Apart(r[i], r[j]) {
      var i', j' := if i <= k then i else i - 1, if j <= k then j else j - 1;
      assert i' < j' ==> Apart(bs[i'], bs[j']);
    }
    forall j | 0 <= j < |r| ensures Sound(r[j]) {
      assert j > k ==> Sound(bs[j - 1]);
    }
  }

  /** The rest of a free block meets no free neighbour, since the block itself met none. */
  lemma SplitMerged(bs: seq<Blk>, k: nat, t: nat)
    requires Merged(bs) && k < |bs| && bs[k].free && t <= bs[k].size
    ensures Merged(Marked(SplitAt(bs, k, t), k, false))
  {
    var r := Marked(SplitAt(bs, k, t), k, false);
    SplitElems(bs, k, t);
    forall i, j | 0 <= i < |r| && 0 <= j < |r| && j == i + 1 ensures !(r[i].free && r[j].free && Touch(r[i], r[j])) {
      if j < k {
        assert r[i] == bs[i] && r[j] == bs[j];
      } else if i > k {
        var m := i - 1;
        assert !(bs[m].free && bs[i].free && Touch(bs[m], bs[i]));
      }
    }
  }

  lemma MergeTidy(bs: seq<Blk>, k: nat)
    requires Tidy(bs) && k + 1 < |bs| && Touch(bs[k], bs[k + 1])
    ensures Tidy(MergeAt(bs, k))
  {
    var r := MergeAt(bs, k);
    MergeElems(bs, k);
    assert Sound(bs[k]) && Sound(bs[k + 1]);
    forall i, j | 0 <= i < j < |r| ensures Apart(r[i], r[j]) {
      var i', j' := if i <= k then i else i + 1, if j <= k then j else j + 1;
      assert Apart(bs[i'], bs[j']);
      assert i == k ==> Apart(bs[k + 1], bs[j']);
      assert j == k ==> Apart(bs[i'], bs[k + 1]);
    }
    forall j | 0 <= j < |r| ensures Sound(r[j]) {
      assert j > k ==> Sound(bs[j + 1]);
    }
  }

  // ---- Merging after a block is freed ----

  /** Neighbours are merged except perhaps for the pairs that begin in `[lo, hi)`. */
  predicate MergedBut(bs: seq<Blk>, lo: int, hi: int) {
    forall k, k' :: 0 <= k < |bs| && 0 <= k' < |bs| && k' == k + 1 && !(lo <= k < hi) ==>
      !(bs[k].free && bs[k'].free && Touch(bs[k], bs[k']))
  }

  lemma FreedMerged(bs: seq<Blk>, k: nat)
    requires Merged(bs) && k < |bs|
    ensures MergedBut(Marked(bs, k, true), k - 1, k + 1)
  {
    var r := Marked(bs, k, true);
    forall i, j | 0 <= i < |r| && 0 <= j < |r| && j == i + 1 && !(k - 1 <= i < k + 1)
      ensures !(r[i].free && r[j].free && Touch(r[i], r[j]))
    {
      assert r[i] == bs[i] && r[j] == bs[j];
    }
  }

  lemma NextMerged(bs: seq<Blk>, k: nat)
    requires MergedBut(bs, k - 1, k + 1) && k + 1 < |bs| && bs[k + 1].free && Touch(bs[k], bs[k + 1])
    ensures MergedBut(MergeAt(bs, k), k - 1, k)
  {
    var r := MergeAt(bs, k);
    MergeElems(bs, k);
    hide MergeAt;
    forall i, j | 0 <= i < |r| && 0 <= j < |r| && j == i + 1 && !(k - 1 <= i < k)
      ensures !(r[i].free && r[j].free && Touch(r[i], r[j]))
    {
      var i', j' := if i < k then i else i + 1, if j <= k then j else j + 1;
      assert !(bs[i'].free && bs[j'].free && Touch(bs[i'], bs[j']));
    }
  }

  lemma PrevMerged(bs: seq<Blk>, k: nat)
    requires MergedBut(bs, k, k + 1) && k + 1 < |bs| && bs[k + 1].free && Touch(bs[k], bs[k + 1])
    ensures Merged(MergeAt(bs, k))
  {
    var r := MergeAt(bs, k);
    MergeElems(bs, k);
    hide MergeAt;
    forall i, j | 0 <= i < |r| && 0 <= j < |r| && j == i + 1 ensures !(r[i].free && r[j].free && Touch(r[i], r[j])) {
      var i', j' := if i < k then i else i + 1, if j <= k then j else j + 1;
      assert !(bs[i'].free && bs[j'].free && Touch(bs[i'], bs[j']));
    }
  }

  /** A block in use that takes over its neighbour is no free neighbour of anything. */
  lemma AbsorbMerged(bs: seq<Blk>, k: nat)
    requires Merged(bs) && k + 1 < |bs| && !bs[k].free
    ensures Merged(MergeAt(bs, k))
  {
    var r := MergeAt(bs, k);
    MergeElems(bs, k);
    hide MergeAt;
    forall i, j | 0 <= i < |r| && 0 <= j < |r| && j == i + 1 ensures !(r[i].free && r[j].free && Touch(r[i], r[j])) {
      var i', j' := if i < k then i else i + 1, if j <= k then j else j + 1;
      assert !(bs[i'].free && bs[j'].free && Touch(bs[i'], bs[j']));
    }
  }

  lemma PrevApart(bs: seq<Blk>, k: nat)
    requires MergedBut(bs, k - 1, k) && k < |bs|
    requires k > 0 ==> !(bs[k - 1].free && Touch(bs[k - 1], bs[k]))
    ensures Merged(bs)
  {
  }

  lemma MarkTidy(bs: seq<Blk>, k: nat, free: bool)
    requires Tidy(bs) && k < |bs|
    ensures Tidy(Marked(bs, k, free))
  {
    var r := Marked(bs, k, free);
    forall i, j | 0 <= i < j < |r| ensures Apart(r[i], r[j]) {
      assert Apart(bs[i], bs[j]);
    }
    forall j | 0 <= j < |r| ensures Sound(r[j]) {
      assert Sound(bs[j]);
    }
  }

  // ---- Headers linked in memory ----

  datatype Header = Header(size: nat, free: bool, next: nat, prev: nat)

  function AddrAt(bs: seq<Blk>, k: int): nat {
    if 0 <= k < |bs| then bs[k].addr else 0
  }

  /** The header of block `k` describes it and points to its neighbours. */
  predicate LinkAt(hdr: map<nat, Header>, bs: seq<Blk>, k: nat)
    requires k < |bs|
  {
    && bs[k].addr in hdr
    && hdr[bs[k].addr] == Header(bs[k].size, bs[k].free, AddrAt(bs, k + 1), AddrAt(bs, k - 1))
  }

  /** The list from `head` through `next` is `bs`, and `prev` is its inverse. */
  predicate Linked(hdr: map<nat, Header>, head: nat, bs: seq<Blk>) {
    head == AddrAt(bs, 0) && forall k :: 0 <= k < |bs| ==> LinkAt(hdr, bs, k)
  }

  predicate Distinct(bs: seq<Blk>) {
    forall j, k :: 0 <= j < k < |bs| ==> bs[j].addr != bs[k].addr
  }

  lemma TidyDistinct(bs: seq<Blk>)
    requires Tidy(bs)
    ensures Distinct(bs) && forall k :: 0 <= k < |bs| ==> bs[k].addr > 0
  {
    forall j, k | 0 <= j < k < |bs| ensures bs[j].addr != bs[k].addr {
      assert Apart(bs[j], bs[k]) && Sound(bs[j]) && Sound(bs[k]);
    }
    assert forall k :: 0 <= k < |bs| ==> Sound(bs[k]) && bs[k].addr > 0;
  }

  function SetPrev(hdr: map<nat, Header>, a: nat, p: nat): map<nat, Header> {
    if a != 0 && a in hdr then hdr[a := hdr[a].(prev := p)] else hdr
  }

  function SplitHdr(hdr: map<nat, Header>, b: nat, t: nat): map<nat, Header>
    requires b in hdr && t <= hdr[b].size
  {
    var s := b + t;
    var h := SetPrev(hdr[s := Header(hdr[b].size - t, true, hdr[b].next, b)], hdr[b].next, s);
    h[b := Header(t, hdr[b].free, s, hdr[b].prev)]
  }

  function MergeHdr(hdr: map<nat, Header>, b: nat): map<nat, Header>
    requires b in hdr && hdr[b].next in hdr
  {
    var n := hdr[hdr[b].next];
    SetPrev(hdr[b := hdr[b].(size := hdr[b].size + n.size, next := n.next)], n.next, b)
  }

  lemma UpdateLinked(hdr: map<nat, Header>, head: nat, bs: seq<Blk>, k: nat, b: Blk)
    requires Linked(hdr, head, bs) && Distinct(bs) && k < |bs| && b.addr == bs[k].addr
    ensures LinkAt(hdr, bs, k)
    ensures Linked(hdr[b.addr := hdr[b.addr].(size := b.size, free := b.free)], head, bs[k := b])
  {
    assert LinkAt(hdr, bs, k);
    var h, r := hdr[b.addr := hdr[b.addr].(size := b.size, free := b.free)], bs[k := b];
    forall j | 0 <= j < |r| ensures LinkAt(h, r, j) {
      assert LinkAt(hdr, bs, j);
      assert AddrAt(r, j + 1) == AddrAt(bs, j + 1) && AddrAt(r, j - 1) == AddrAt(bs, j - 1);
    }
  }

  /** A header written where no block is. */
  lemma SpareLinked(hdr: map<nat, Header>, head: nat, bs: seq<Blk>, a: nat, h: Header)
    requires Linked(hdr, head, bs) && forall k :: 0 <= k < |bs| ==> bs[k].addr != a
    ensures Linked(hdr[a := h], head, bs)
  {
    var hdr' := hdr[a := h];
    forall j | 0 <= j < |bs| ensures LinkAt(hdr', bs, j) {
      assert LinkAt(hdr, bs, j);
    }
  }

  lemma AppendLinked(hdr: map<nat, Header>, head: nat, bs: seq<Blk>, b: Blk)
    requires Linked(hdr, head, bs) && Distinct(bs + [b]) && |bs| > 0
    ensures var t := bs[|bs| - 1].addr;
      && t in hdr
      && Linked(hdr[b.addr := Header(b.size, b.free, 0, t)][t := hdr[t].(next := b.addr)], head, bs + [b])
  {
    var n, r := |bs| - 1, bs + [b];
    var t := bs[n].addr;
    assert LinkAt(hdr, bs, n);
    assert r[n] == bs[n] && r[n + 1] == b;
    var h := hdr[b.addr := Header(b.size, b.free, 0, t)][t := hdr[t].(next := b.addr)];
    forall j | 0 <= j < |r| ensures LinkAt(h, r, j) {
      assert AddrAt(r, j - 1) == AddrAt(bs, j - 1);
      if j <= n {
        assert LinkAt(hdr, bs, j) && r[j] == bs[j];
        assert j < n ==> AddrAt(r, j + 1) == AddrAt(bs, j + 1);
      }
    }
  }

  lemma SplitHdrAt(hdr: map<nat, Header>, b: nat, t: nat, a: nat)
    requires b in hdr && 0 < t <= hdr[b].size && (a in hdr || a == b + t) && hdr[b].next != b + t
    requires hdr[b].next == 0 || hdr[b].next in hdr
    ensures a in SplitHdr(hdr, b, t)
    ensures SplitHdr(hdr, b, t)[a] ==
            if a == b then Header(t, hdr[b].free, b + t, hdr[b].prev)
            else if a == b + t then Header(hdr[b].size - t, true, hdr[b].next, b)
            else if a != 0 && a == hdr[b].next then hdr[a].(prev := b + t) else hdr[a]
  {
  }

  lemma MergeHdrAt(hdr: map<nat, Header>, b: nat, a: nat)
    requires b in hdr && hdr[b].next in hdr && a in hdr && hdr[hdr[b].next].next != b
    requires hdr[hdr[b].next].next == 0 || hdr[hdr[b].next].next in hdr
    ensures var n := hdr[hdr[b].next];
      && a in MergeHdr(hdr, b)
      && MergeHdr(hdr, b)[a] ==
         if a == b then hdr[b].(size := hdr[b].size + n.size, next := n.next)
         else if a != 0 && a == n.next then hdr[a].(prev := b) else hdr[a]
  {
  }

  lemma SplitAddr(bs: seq<Blk>, k: nat, t: nat, j: nat)
    requires k < |bs| && t <= bs[k].size && j < |bs| + 1
    ensures SplitAt(bs, k, t)[j] == if j < k then bs[j] else if j == k then bs[k].(size := t)
                                    else if j == k + 1 then Blk(bs[k].addr + t, bs[k].size - t, true) else bs[j - 1]
    ensures AddrAt(SplitAt(bs, k, t), j - 1) ==
            if j <= k then AddrAt(bs, j - 1) else if j == k + 1 then bs[k].addr else
            if j == k + 2 then bs[k].addr + t else AddrAt(bs, j - 2)
    ensures AddrAt(SplitAt(bs, k, t), j + 1) ==
            if j < k then AddrAt(bs, j + 1) else if j == k then bs[k].addr + t else AddrAt(bs, j)
  {
    SplitElems(bs, k, t);
  }

  lemma MergeAddr(bs: seq<Blk>, k: nat, j: nat)
    requires k + 1 < |bs| && j < |bs| - 1
    ensures MergeAt(bs, k)[j] == if j < k then bs[j] else if j == k then bs[k].(size := bs[k].size + bs[k + 1].size) else bs[j + 1]
    ensures AddrAt(MergeAt(bs, k), j - 1) == if j <= k then AddrAt(bs, j - 1) else if j == k + 1 then bs[k].addr else AddrAt(bs, j)
    ensures AddrAt(MergeAt(bs, k), j + 1) == if j < k then AddrAt(bs, j + 1) else AddrAt(bs, j + 2)
  {
    MergeElems(bs, k);
  }

  lemma Differ(bs: seq<Blk>, j: nat, k: nat)
    requires Tidy(bs) && j < |bs| && k < |bs| && j != k
    ensures bs[j].addr != bs[k].addr
  {
    TidyDistinct(bs);
  }

  /** A block away from the split keeps its header. */
  lemma SplitLinkFar(hdr: map<nat, Header>, head: nat, bs: seq<Blk>, k: nat, t: nat, j: nat, m: nat)
    requires Linked(hdr, head, bs) && Tidy(bs) && k < |bs| && 0 < t < bs[k].size
    requires m < |bs| && m != k && m != k + 1 && j == (if m < k then m else m + 1)
    requires LinkAt(hdr, bs, k) && LinkAt(hdr, bs, m) && (k + 1 < |bs| ==> LinkAt(hdr, bs, k + 1))
    ensures LinkAt(SplitHdr(hdr, bs[k].addr, t), SplitAt(bs, k, t), j)
  {
    hide SplitAt, Tidy, Linked, Sound, SplitHdr;
    SplitAddr(bs, k, t, j);
    FreshAddr(bs, k, t, m);
    Differ(bs, m, k);
    if k + 1 < |bs| {
      FreshAddr(bs, k, t, k + 1);
      Differ(bs, m, k + 1);
    }
    SplitHdrAt(hdr, bs[k].addr, t, bs[m].addr);
  }

  lemma SplitLinkNear(hdr: map<nat, Header>, head: nat, bs: seq<Blk>, k: nat, t: nat, j: nat)
    requires Linked(hdr, head, bs) && Tidy(bs) && k < |bs| && 0 < t < bs[k].size && k <= j <= k + 2 && j < |bs| + 1
    requires LinkAt(hdr, bs, k) && (k + 1 < |bs| ==> LinkAt(hdr, bs, k + 1) && bs[k + 1].addr > 0)
    ensures LinkAt(SplitHdr(hdr, bs[k].addr, t), SplitAt(bs, k, t), j)
  {
    hide SplitAt, Tidy, Linked, Sound, SplitHdr;
    SplitAddr(bs, k, t, j);
    if k + 1 < |bs| {
      FreshAddr(bs, k, t, k + 1);
      Differ(bs, k, k + 1);
    }
    SplitHdrAt(hdr, bs[k].addr, t, SplitAt(bs, k, t)[j].addr);
  }

  lemma SplitLink(hdr: map<nat, Header>, head: nat, bs: seq<Blk>, k: nat, t: nat, j: nat)
    requires Linked(hdr, head, bs) && Tidy(bs) && k < |bs| && 0 < t < bs[k].size && j < |bs| + 1
    requires LinkAt(hdr, bs, k)
    ensures LinkAt(SplitHdr(hdr, bs[k].addr, t), SplitAt(bs, k, t), j)
  {
    assert k + 1 < |bs| ==> LinkAt(hdr, bs, k + 1) && Sound(bs[k + 1]);
    var m := if j < k then j else j - 1;
    assert j < k || j > k + 2 ==> LinkAt(hdr, bs, m);
    hide SplitAt, Tidy, Linked, SplitHdr, LinkAt;
    if k <= j <= k + 2 {
      SplitLinkNear(hdr, head, bs, k, t, j);
    } else {
      SplitLinkFar(hdr, head, bs, k, t, j, m);
    }
  }

  /** An address inside one block is not where another begins. */
  lemma FreshAddr(bs: seq<Blk>, k: nat, t: nat, m: nat)
    requires Tidy(bs) && k < |bs| && 0 < t < bs[k].size && m < |bs|
    ensures bs[m].addr != bs[k].addr + t
  {
    assert Sound(bs[m]);
    assert m < k ==> Apart(bs[m], bs[k]);
    assert k < m ==> Apart(bs[k], bs[m]);
  }

  lemma MergeLinkFar(hdr: map<nat, Header>, head: nat, bs: seq<Blk>, k: nat, j: nat, m: nat)
    requires Linked(hdr, head, bs) && Tidy(bs) && k + 1 < |bs|
    requires m < |bs| && m != k && m != k + 1 && m != k + 2 && j == (if m < k then m else m - 1) && bs[k].addr > 0
    requires LinkAt(hdr, bs, k) && LinkAt(hdr, bs, k + 1) && LinkAt(hdr, bs, m) && (k + 2 < |bs| ==> LinkAt(hdr, bs, k + 2))
    ensures LinkAt(MergeHdr(hdr, bs[k].addr), MergeAt(bs, k), j)
  {
    hide MergeAt, Tidy, Linked, Sound, MergeHdr;
    MergeAddr(bs, k, j);
    Differ(bs, m, k);
    if k + 2 < |bs| {
      Differ(bs, k, k + 2);
      Differ(bs, m, k + 2);
    }
    MergeHdrAt(hdr, bs[k].addr, bs[m].addr);
  }

  lemma MergeLinkNear(hdr: map<nat, Header>, head: nat, bs: seq<Blk>, k: nat, j: nat)
    requires Linked(hdr, head, bs) && Tidy(bs) && k + 1 < |bs| && k <= j <= k + 1 && j < |bs| - 1 && bs[k].addr > 0
    requires LinkAt(hdr, bs, k) && LinkAt(hdr, bs, k + 1) && (k + 2 < |bs| ==> LinkAt(hdr, bs, k + 2) && bs[k + 2].addr > 0)
    ensures LinkAt(MergeHdr(hdr, bs[k].addr), MergeAt(bs, k), j)
  {
    hide MergeAt, Tidy, Linked, Sound, MergeHdr;
    MergeAddr(bs, k, j);
    if k + 2 < |bs| {
      Differ(bs, k, k + 2);
    }
    MergeHdrAt(hdr, bs[k].addr, MergeAt(bs, k)[j].addr);
  }

  lemma MergeLink(hdr: map<nat, Header>, head: nat, bs: seq<Blk>, k: nat, j: nat)
    requires Linked(hdr, head, bs) && Tidy(bs) && k + 1 < |bs| && j < |bs| - 1
    requires LinkAt(hdr, bs, k) && LinkAt(hdr, bs, k + 1)
    ensures LinkAt(MergeHdr(hdr, bs[k].addr), MergeAt(bs, k), j)
  {
    assert k + 2 < |bs| ==> LinkAt(hdr, bs, k + 2) && Sound(bs[k + 2]);
    assert Sound(bs[k]);
    var m := if j < k then j else j + 1;
    assert LinkAt(hdr, bs, m);
    hide MergeAt, Tidy, Linked, MergeHdr, LinkAt;
    if k <= j <= k + 1 {
      MergeLinkNear(hdr, head, bs, k, j);
    } else {
      MergeLinkFar(hdr, head, bs, k, j, m);
    }
  }

  lemma SplitLinked(hdr: map<nat, Header>, head: nat, bs: seq<Blk>, k: nat, t: nat)
    requires Linked(hdr, head, bs) && Tidy(bs) && k < |bs| && 0 < t < bs[k].size
    ensures LinkAt(hdr, bs, k) && Linked(SplitHdr(hdr, bs[k].addr, t), head, SplitAt(bs, k, t))
  {
    assert LinkAt(hdr, bs, k);
    SplitAddr(bs, k, t, 0);
    var r := SplitAt(bs, k, t);
    hide SplitAt, SplitHdr;
    forall j | 0 <= j < |r| ensures LinkAt(SplitHdr(hdr, bs[k].addr, t), r, j) {
      SplitLink(hdr, head, bs, k, t, j);
    }
  }

  lemma MergeLinked(hdr: map<nat, Header>, head: nat, bs: seq<Blk>, k: nat)
    requires Linked(hdr, head, bs) && Tidy(bs) && k + 1 < |bs|
    ensures LinkAt(hdr, bs, k) && LinkAt(hdr, bs, k + 1)
    ensures Linked(MergeHdr(hdr, bs[k].addr), head, MergeAt(bs, k))
  {
    assert LinkAt(hdr, bs, k) && LinkAt(hdr, bs, k + 1);
    MergeAddr(bs, k, 0);
    var r := MergeAt(bs, k);
    hide MergeAt, MergeHdr;
    forall j | 0 <= j < |r| ensures LinkAt(MergeHdr(hdr, bs[k].addr), r, j) {
      MergeLink(hdr, head, bs, k, j);
    }
  }

  // ---- What each operation does to the blocks in use ----

  /** `bs'` has the blocks in use of `bs` and one more. */
  ghost predicate Added(bs: seq<Blk>, bs': seq<Blk>, a: nat, size: nat) {
    && (forall s :: !Live(bs, a, s))
    && (forall x, s :: Live(bs', x, s) <==> Live(bs, x, s) || (x == a && s == size))
  }

  ghost predicate SameLive(bs: seq<Blk>, bs': seq<Blk>) {
    forall x, s :: Live(bs', x, s) <==> Live(bs, x, s)
  }

  /** `bs'` has the blocks in use of `bs` except the one at `a`. */
  ghost predicate Removed(bs: seq<Blk>, bs': seq<Blk>, a: nat) {
    forall x, s :: Live(bs', x, s) <==> Live(bs, x, s) && x != a
  }

  lemma TakeLive(bs: seq<Blk>, k: nat)
    requires Tidy(bs) && k < |bs| && bs[k].free
    ensures Added(bs, Marked(bs, k, false), bs[k].addr, bs[k].size)
  {
    TidyDistinct(bs);
    hide Tidy;
    var r := Marked(bs, k, false);
    forall x, s ensures Live(r, x, s) <==> Live(bs, x, s) || (x == bs[k].addr && s == bs[k].size) {
      if Live(bs, x, s) {
        var j :| 0 <= j < |bs| && bs[j] == Blk(x, s, false);
        assert r[j] == bs[j];
      }
      assert r[k] == Blk(bs[k].addr, bs[k].size, false);
    }
  }

  lemma GiveLive(bs: seq<Blk>, k: nat)
    requires Tidy(bs) && k < |bs|
    ensures Removed(bs, Marked(bs, k, true), bs[k].addr)
  {
    TidyDistinct(bs);
    hide Tidy;
    var r := Marked(bs, k, true);
    forall x, s ensures Live(r, x, s) <==> Live(bs, x, s) && x != bs[k].addr {
      if Live(bs, x, s) && x != bs[k].addr {
        var j :| 0 <= j < |bs| && bs[j] == Blk(x, s, false);
        assert r[j] == bs[j];
      }
      if Live(r, x, s) {
        var j :| 0 <= j < |r| && r[j] == Blk(x, s, false);
        assert bs[j] == r[j];
      }
    }
  }

  lemma MergeLive(bs: seq<Blk>, k: nat)
    requires k + 1 < |bs| && bs[k].free && bs[k + 1].free
    ensures SameLive(bs, MergeAt(bs, k))
  {
    MergeElems(bs, k);
    hide MergeAt;
    var r := MergeAt(bs, k);
    forall x, s ensures Live(r, x, s) <==> Live(bs, x, s) {
      if Live(bs, x, s) {
        var j :| 0 <= j < |bs| && bs[j] == Blk(x, s, false);
        var m := if j < k then j else j - 1;
        assert r[m] == bs[j];
      }
      if Live(r, x, s) {
        var m :| 0 <= m < |r| && r[m] == Blk(x, s, false);
        var j := if m < k then m else m + 1;
        assert bs[j] == r[m];
      }
    }
  }

  lemma SplitLive(bs: seq<Blk>, k: nat, t: nat)
    requires k < |bs| && bs[k].free && t <= bs[k].size
    ensures SameLive(bs, SplitAt(bs, k, t))
  {
    SplitElems(bs, k, t);
    MergeSplit(bs, k, t);
    hide MergeAt, SplitAt;
    MergeLive(SplitAt(bs, k, t), k);
  }

  /** A block in use that takes over its free neighbour only changes its size. */
  lemma AbsorbLive(bs: seq<Blk>, k: nat)
    requires Tidy(bs) && k + 1 < |bs| && !bs[k].free && bs[k + 1].free
    ensures forall x, s :: Live(MergeAt(bs, k), x, s) <==>
              if x == bs[k].addr then s == bs[k].size + bs[k + 1].size else Live(bs, x, s)
  {
    TidyDistinct(bs);
    MergeElems(bs, k);
    hide MergeAt, Tidy;
    var r := MergeAt(bs, k);
    forall x, s ensures Live(r, x, s) <==> if x == bs[k].addr then s == bs[k].size + bs[k + 1].size else Live(bs, x, s) {
      if Live(bs, x, s) && x != bs[k].addr {
        var j :| 0 <= j < |bs| && bs[j] == Blk(x, s, false);
        var m := if j < k then j else j - 1;
        assert r[m] == bs[j];
      }
      if Live(r, x, s) {
        var m :| 0 <= m < |r| && r[m] == Blk(x, s, false);
        var j := if m <= k then m else m + 1;
        assert bs[j].addr == x && (m != k ==> bs[j] == r[m]);
      }
      assert r[k] == Blk(bs[k].addr, bs[k].size + bs[k + 1].size, false);
    }
  }

  lemma LiveApart(bs: seq<Blk>, a: nat, s: nat, b: nat, t: nat)
    requires Tidy(bs) && Live(bs, a, s) && Live(bs, b, t) && a != b
    ensures a + s <= b || b + t <= a
  {
    var j :| 0 <= j < |bs| && bs[j] == Blk(a, s, false);
    var k :| 0 <= k < |bs| && bs[k] == Blk(b, t, false);
    assert j < k ==> Apart(bs[j], bs[k]);
    assert k < j ==> Apart(bs[k], bs[j]);
  }

  /** No block's header lies in the payload of a block, so headers and payloads can be kept apart. */
  lemma HeadersOutsidePayloads(bs: seq<Blk>, j: nat, k: nat, i: nat)
    requires Tidy(bs) && j < |bs| && k < |bs| && bs[k].addr + HEADER <= i < bs[k].addr + bs[k].size
    ensures !(bs[j].addr <= i < bs[j].addr + HEADER)
  {
    assert Sound(bs[j]);
    assert j < k ==> Apart(bs[j], bs[k]);
    assert k < j ==> Apart(bs[k], bs[j]);
  }

  // ---- A freshly mapped block at the end ----

  /** The region given by the kernel is page aligned, below the limit, and apart from every block. */
  ghost predicate Granted(bs: seq<Blk>, b: Blk) {
    Sound(b) && forall k :: 0 <= k < |bs| ==> Apart(bs[k], b)
  }

  lemma AppendTidy(bs: seq<Blk>, b: Blk)
    requires Tidy(bs) && Granted(bs, b)
    ensures Tidy(bs + [b]) && Distinct(bs + [b])
  {
    TidyDistinct(bs + [b]);
  }

  lemma AppendMerged(bs: seq<Blk>, b: Blk)
    requires Merged(bs) && (|bs| > 0 ==> !(bs[|bs| - 1].free && b.free && Touch(bs[|bs| - 1], b)))
    ensures Merged(bs + [b])
  {
    var r := bs + [b];
    forall i, j | 0 <= i < |r| && 0 <= j < |r| && j == i + 1 ensures !(r[i].free && r[j].free && Touch(r[i], r[j])) {
      assert r[i] == bs[i];
    }
  }

  lemma AppendTotal(bs: seq<Blk>, b: Blk)
    ensures Total(bs + [b]) == Total(bs) + b.size
  {
    TotalConcat(bs, [b]);
    TotalOne(b);
  }

  lemma AppendLive(bs: seq<Blk>, b: Blk)
    requires b.free
    ensures SameLive(bs, bs + [b])
  {
    var r := bs + [b];
    forall x, s ensures Live(r, x, s) <==> Live(bs, x, s) {
      if Live(bs, x, s) {
        var j :| 0 <= j < |bs| && bs[j] == Blk(x, s, false);
        assert r[j] == bs[j];
      }
    }
  }

  /** A new region touching a free last block is taken into it: appending and merging at once. */
  lemma GrowLast(bs: seq<Blk>, b: Blk)
    requires Tidy(bs) && Merged(bs) && Granted(bs, b) && |bs| > 0
    requires bs[|bs| - 1].free && b.free && Touch(bs[|bs| - 1], b)
    ensures var n := |bs| - 1;
      var r := bs[n := bs[n].(size := bs[n].size + b.size)];
      Tidy(r) && Merged(r) && Total(r) == Total(bs) + b.size && SameLive(bs, r)
  {
    var n := |bs| - 1;
    var a := bs + [b];
    var r := bs[n := bs[n].(size := bs[n].size + b.size)];
    assert a[n] == bs[n] && a[n + 1] == b;
    MergeElems(a, n);
    assert MergeAt(a, n) == r;
    assert n > 0 ==> !(bs[n - 1].free && bs[n].free && Touch(bs[n - 1], bs[n]));
    AppendTidy(bs, b);
    AppendTotal(bs, b);
    AppendLive(bs, b);
    hide Tidy, Total, Live, MergeAt, Merged, Granted;
    MergeTidy(a, n);
    MergeTotal(a, n);
    MergeLive(a, n);
    GrowMerged(bs, n, bs[n].(size := bs[n].size + b.size));
  }

  lemma GrowMerged(bs: seq<Blk>, n: nat, b: Blk)
    requires Merged(bs) && n == |bs| - 1 && b.addr == bs[n].addr && b.free == bs[n].free
    ensures Merged(bs[n := b])
  {
    var r := bs[n := b];
    forall i, j | 0 <= i < |r| && 0 <= j < |r| && j == i + 1 ensures !(r[i].free && r[j].free && Touch(r[i], r[j])) {
      assert !(bs[i].free && bs[j].free && Touch(bs[i], bs[j]));
    }
  }

  // ---- Request sizes in 64-bit arithmetic ----

  function AlignUp(v: nat): (r: nat)
    ensures r % 16 == 0 && r < WORD
  {
    (v + 15) % WORD / 16 * 16
  }

  /** The block size for a request, header included. */
  function Need(size: nat): (r: nat)
    ensures r % 16 == 0 && r >= LEAST && r < WORD
  {
    var n := AlignUp((size + HEADER) % WORD);
    if n < LEAST then LEAST else n
  }

  /** The block holds the request exactly when the additions did not wrap around. */
  lemma NeedEnough(size: nat)
    requires size < WORD
    ensures Need(size) >= size + HEADER <==> size <= WORD - 48
    ensures size <= WORD - 48 ==> Need(size) < size + HEADER + 16 || Need(size) == LEAST
    ensures AlignUp((size + HEADER) % WORD) >= size + HEADER <==> size <= WORD - 48
    ensures size > WORD - 48 ==> Need(size) == LEAST && AlignUp((size + HEADER) % WORD) < LEAST
  {
  }

  /** A request 47 below the word size gets a block with sixteen bytes of payload. */
  lemma NeedWraps()
    ensures Need(WORD - 47) == 48
  {
    NeedEnough(WORD - 47);
  }

  function Pages(min: nat): nat {
    ((if min < 16384 then 16384 else min) + 4095) % WORD / 4096
  }

  /** A mapping of the pages asked for holds the request, unless the count wrapped to nothing. */
  lemma PagesEnough(min: nat)
    requires min < WORD && Pages(min) > 0
    ensures Pages(min) * 4096 >= min && Pages(min) * 4096 % 16 == 0 && Pages(min) * 4096 >= 16384
    ensures Pages(min) * 4096 == 16384 || Pages(min) * 4096 < min + 4096
  {
  }

  /** Which happens exactly for the last page of sizes. */
  lemma PagesWrap(min: nat)
    requires min < WORD
    ensures Pages(min) == 0 <==> min > WORD - 4096
  {
  }

  lemma AddrZero(bs: seq<Blk>, k: nat)
    requires Tidy(bs) && k <= |bs| && AddrAt(bs, k) == 0
    ensures k == |bs|
  {
    assert k < |bs| ==> Sound(bs[k]);
  }

  lemma UsedMerged(bs: seq<Blk>, k: nat)
    requires Merged(bs) && k < |bs|
    ensures Merged(Marked(bs, k, false))
  {
    var r := Marked(bs, k, false);
    forall i, j | 0 <= i < |r| && 0 <= j < |r| && j == i + 1 ensures !(r[i].free && r[j].free && Touch(r[i], r[j])) {
      assert !(bs[i].free && bs[j].free && Touch(bs[i], bs[j]));
    }
  }

  lemma AddedAfter(bs: seq<Blk>, mid: seq<Blk>, bs': seq<Blk>, a: nat, n: nat)
    requires SameLive(bs, mid) && Added(mid, bs', a, n)
    ensures Added(bs, bs', a, n)
  {
    hide Live;
  }

  lemma RemovedThen(bs: seq<Blk>, mid: seq<Blk>, bs': seq<Blk>, a: nat)
    requires Removed(bs, mid, a) && SameLive(mid, bs')
    ensures Removed(bs, bs', a)
  {
    hide Live;
  }

  /** Cutting block `k` to `t` bytes and taking it. */
  lemma CutAndTake(bs: seq<Blk>, k: nat, t: nat)
    requires Tidy(bs) && Merged(bs) && k < |bs| && bs[k].free && t % 16 == 0 && LEAST <= t && t + LEAST <= bs[k].size
    ensures var r := Marked(SplitAt(bs, k, t), k, false);
      Tidy(SplitAt(bs, k, t)) && Tidy(r) && Merged(r) && Total(r) == Total(bs) && Added(bs, r, bs[k].addr, t)
  {
    SplitElems(bs, k, t);
    hide Tidy, Merged, Total, Live, SplitAt;
    var mid := SplitAt(bs, k, t);
    SplitTidy(bs, k, t);
    MarkTidy(mid, k, false);
    SplitMerged(bs, k, t);
    SplitTotal(bs, k, t);
    MarkTotal(mid, k, false);
    SplitLive(bs, k, t);
    TakeLive(mid, k);
    AddedAfter(bs, mid, Marked(mid, k, false), bs[k].addr, t);
  }

  lemma TakeWhole(bs: seq<Blk>, k: nat)
    requires Tidy(bs) && Merged(bs) && k < |bs| && bs[k].free
    ensures var r := Marked(bs, k, false);
      Tidy(r) && Merged(r) && Total(r) == Total(bs) && Added(bs, r, bs[k].addr, bs[k].size)
  {
    hide Tidy, Merged, Total, Live;
    MarkTidy(bs, k, false);
    UsedMerged(bs, k);
    MarkTotal(bs, k, false);
    TakeLive(bs, k);
  }

  lemma NextLinked(hdr: map<nat, Header>, head: nat, bs: seq<Blk>, k: nat)
    requires Linked(hdr, head, bs) && k < |bs|
    ensures LinkAt(hdr, bs, k) && bs[k].addr in hdr && hdr[bs[k].addr].size == bs[k].size && hdr[bs[k].addr].free == bs[k].free
    ensures (hdr[bs[k].addr].next != 0 ==> k + 1 < |bs| && hdr[bs[k].addr].next in hdr)
    ensures k + 1 < |bs| ==> LinkAt(hdr, bs, k + 1)
  {
    assert LinkAt(hdr, bs, k);
    assert k + 1 < |bs| ==> LinkAt(hdr, bs, k + 1);
  }

  /** A block in use lies below the address limit. */
  lemma LiveTop(bs: seq<Blk>, a: nat, n: nat)
    requires Tidy(bs) && Live(bs, a, n)
    ensures a > 0 && a + n <= TOP
  {
    var k :| 0 <= k < |bs| && bs[k] == Blk(a, n, false);
    assert Sound(bs[k]);
  }

  lemma AppendSpare(bs: seq<Blk>, b: Blk)
    requires Granted(bs, b) && Tidy(bs)
    ensures forall k :: 0 <= k < |bs| ==> bs[k].addr != b.addr
  {
    assert forall k :: 0 <= k < |bs| ==> Sound(bs[k]) && Apart(bs[k], b);
  }

  /** The first block of an empty list. */
  lemma EmptyLinked(hdr: map<nat, Header>, bs: seq<Blk>, b: Blk)
    requires Linked(hdr, 0, bs) && Tidy(bs) && b.addr in hdr && hdr[b.addr] == Header(b.size, b.free, 0, 0)
    ensures bs == [] && Linked(hdr, b.addr, bs + [b])
  {
    AddrZero(bs, 0);
    assert bs + [b] == [b];
  }

  lemma NextApart(hdr: map<nat, Header>, head: nat, bs: seq<Blk>, k: nat)
    requires Linked(hdr, head, bs) && Tidy(bs) && k < |bs| && MergedBut(bs, k - 1, k + 1) && LinkAt(hdr, bs, k)
    requires k + 1 < |bs| ==> LinkAt(hdr, bs, k + 1)
    requires var next := hdr[bs[k].addr].next;
      next == 0 || !(next in hdr && hdr[next].free && bs[k].addr + hdr[bs[k].addr].size == next)
    ensures MergedBut(bs, k - 1, k)
  {
    assert k + 1 < |bs| ==> Sound(bs[k + 1]);
  }

  lemma PrevLinked(hdr: map<nat, Header>, head: nat, bs: seq<Blk>, k: nat)
    requires Linked(hdr, head, bs) && Tidy(bs) && k < |bs|
    ensures LinkAt(hdr, bs, k) && (k > 0 ==> LinkAt(hdr, bs, k - 1))
    ensures hdr[bs[k].addr].prev != 0 <==> k > 0
  {
    assert LinkAt(hdr, bs, k);
    assert k > 0 ==> LinkAt(hdr, bs, k - 1) && Sound(bs[k - 1]);
  }

  lemma AfterDiffers(bs: seq<Blk>, k: nat)
    requires Tidy(bs) && k + 1 < |bs|
    ensures k + 2 < |bs| ==> bs[k + 2].addr != bs[k].addr
  {
    if k + 2 < |bs| {
      Differ(bs, k, k + 2);
    }
  }

  /** The block behind `a` is free, touches it, and with it makes at least `need` bytes. */
  ghost predicate CanGrow(bs: seq<Blk>, a: nat, n: nat, need: nat) {
    exists k :: 0 <= k < |bs| - 1 && GrowsAt(bs, k, a, n, need)
  }

  predicate GrowsAt(bs: seq<Blk>, k: nat, a: nat, n: nat, need: nat) {
    && k + 1 < |bs| && bs[k] == Blk(a, n, false) && bs[k + 1].free && Touch(bs[k], bs[k + 1])
    && n + bs[k + 1].size >= need
  }

  /** The place of a block in use is determined by its address. */
  lemma GrowsHere(bs: seq<Blk>, k: nat, a: nat, n: nat, need: nat)
    requires Tidy(bs) && k < |bs| && bs[k] == Blk(a, n, false)
    ensures CanGrow(bs, a, n, need) <==> GrowsAt(bs, k, a, n, need)
  {
    TidyDistinct(bs);
    hide Tidy;
    if CanGrow(bs, a, n, need) {
      var j :| 0 <= j < |bs| - 1 && GrowsAt(bs, j, a, n, need);
      assert j == k;
    }
  }

  /** One block in use is replaced by another. */
  ghost predicate Replaced(bs: seq<Blk>, bs': seq<Blk>, a: nat, b: nat, n: nat) {
    forall x, s :: Live(bs', x, s) <==> if x == b then s == n else Live(bs, x, s) && x != a
  }

  lemma ReplacedBy(bs: seq<Blk>, mid: seq<Blk>, bs': seq<Blk>, a: nat, b: nat, n: nat)
    requires Added(bs, mid, b, n) && Removed(mid, bs', a) && a != b
    ensures Replaced(bs, bs', a, b, n)
  {
    hide Live;
  }

  lemma LiveOne(bs: seq<Blk>, a: nat, s: nat, t: nat)
    requires Tidy(bs) && Live(bs, a, s) && Live(bs, a, t)
    ensures s == t
  {
    TidyDistinct(bs);
  }

  /** A block in use replaced by itself. */
  lemma KeptLive(bs: seq<Blk>, a: nat, n: nat)
    requires Tidy(bs) && Live(bs, a, n)
    ensures Replaced(bs, bs, a, a, n)
  {
    forall s | Live(bs, a, s) ensures s == n {
      LiveOne(bs, a, s, n);
    }
  }

  lemma SizeOf(hdr: map<nat, Header>, head: nat, bs: seq<Blk>, a: nat, n: nat)
    requires Linked(hdr, head, bs) && Tidy(bs) && Live(bs, a, n)
    ensures a in hdr && hdr[a].size == n && n >= LEAST
  {
    var k :| 0 <= k < |bs| && bs[k] == Blk(a, n, false);
    assert LinkAt(hdr, bs, k) && Sound(bs[k]);
  }
}
