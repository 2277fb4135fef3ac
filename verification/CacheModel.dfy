/**
 The write-back block cache: a hash index, an intrusive LRU list and dirty bits over a fixed set of
 entries. The lists are related to ghost sequences, and the whole cache to a plain block map.
 */
module CacheModel {

  const ENTRIES: nat := 256
  const BUCKETS: nat := 256

  datatype Entry<D> = Entry(data: D, tag: nat, valid: bool, dirty: bool, prev: int, next: int, hashNext: int)

  predicate Dirty<D>(e: Entry<D>) {
    e.valid && e.dirty
  }

  // ---- Lists threaded through the entries ----

  function At(s: seq<nat>, k: int): int {
    if 0 <= k < |s| then s[k] else -1
  }

  function Without(s: seq<nat>, k: nat): (r: seq<nat>)
    requires k < |s|
    ensures |r| == |s| - 1
    ensures forall j :: 0 <= j < |r| ==> r[j] == if j < k then s[j] else s[j + 1]
  {
    s[..k] + s[k + 1..]
  }

  /** `r` is `s` with one entry moved to the front. */
  ghost predicate MovedFront(s: seq<nat>, r: seq<nat>) {
    exists k :: 0 <= k < |s| && r == [s[k]] + Without(s, k)
  }

  predicate Distinct(s: seq<nat>) {
    forall j, k :: 0 <= j < k < |s| ==> s[j] != s[k]
  }

  predicate Inside(s: seq<nat>, n: nat) {
    forall k :: 0 <= k < |s| ==> s[k] < n
  }

  /** The neighbours the `k`-th listed entry points to. */
  predicate LinkAt<D>(es: seq<Entry<D>>, order: seq<nat>, k: nat)
    requires k < |order| && order[k] < |es|
  {
    es[order[k]].prev == At(order, k - 1) && es[order[k]].next == At(order, k + 1)
  }

  /** The doubly linked list from `head` to `tail` runs through exactly the entries `order`. */
  predicate Linked<D>(es: seq<Entry<D>>, order: seq<nat>, head: int, tail: int) {
    && Distinct(order) && Inside(order, |es|)
    && head == At(order, 0) && tail == At(order, |order| - 1)
    && (forall k :: 0 <= k < |order| ==> LinkAt(es, order, k))
  }

  /** The singly linked chain from `first` runs through exactly the entries `c`. */
  predicate Chain<D>(es: seq<Entry<D>>, c: seq<nat>, first: int) {
    && Distinct(c) && Inside(c, |es|) && first == At(c, 0)
    && (forall k :: 0 <= k < |c| ==> es[c[k]].hashNext == At(c, k + 1))
  }

  /** Every entry is in the list; with distinctness, the list is a permutation of all entries. */
  ghost predicate Full(order: seq<nat>, n: nat) {
    forall i :: 0 <= i < n ==> i in order
  }

  // ---- The list operations on values ----

  function SetNext<D>(es: seq<Entry<D>>, i: int, v: int): (r: seq<Entry<D>>)
    requires i < |es|
    ensures |r| == |es|
  {
    if i < 0 then es else es[i := es[i].(next := v)]
  }

  function SetPrev<D>(es: seq<Entry<D>>, i: int, v: int): (r: seq<Entry<D>>)
    requires i < |es|
    ensures |r| == |es|
  {
    if i < 0 then es else es[i := es[i].(prev := v)]
  }

  /** Only list links differ. */
  ghost predicate SameBody<D>(es: seq<Entry<D>>, es': seq<Entry<D>>) {
    |es| == |es'| && forall i :: 0 <= i < |es| ==> es'[i] == es[i].(prev := es'[i].prev, next := es'[i].next)
  }

  predicate InRange<D>(es: seq<Entry<D>>, i: int) {
    -1 <= i < |es|
  }

  function Unlinked<D>(es: seq<Entry<D>>, i: nat): (r: seq<Entry<D>>)
    requires i < |es| && InRange(es, es[i].prev) && InRange(es, es[i].next)
    ensures |r| == |es| && SameBody(es, r)
  {
    var a := SetPrev(SetNext(es, es[i].prev, es[i].next), es[i].next, es[i].prev);
    a[i := a[i].(prev := -1, next := -1)]
  }

  function PushedHead<D>(es: seq<Entry<D>>, i: nat, head: int): (r: seq<Entry<D>>)
    requires i < |es| && InRange(es, head)
    ensures |r| == |es| && SameBody(es, r)
  {
    SetPrev(es[i := es[i].(prev := -1, next := head)], head, i)
  }

  function PushedTail<D>(es: seq<Entry<D>>, i: nat, tail: int): (r: seq<Entry<D>>)
    requires i < |es| && InRange(es, tail)
    ensures |r| == |es| && SameBody(es, r)
  {
    SetNext(es[i := es[i].(prev := tail, next := -1)], tail, i)
  }

  lemma WithoutDistinct(s: seq<nat>, k: nat)
    requires k < |s| && Distinct(s)
    ensures Distinct(Without(s, k)) && s[k] !in Without(s, k)
    ensures forall x :: x in s ==> x == s[k] || x in Without(s, k)
    ensures forall x :: x in Without(s, k) ==> x in s
  {
    var r := Without(s, k);
    forall x | x in s && x != s[k] ensures x in r {
      var j :| 0 <= j < |s| && s[j] == x;
      var m := if j < k then j else j - 1;
      assert r[m] == x;
    }
  }

  lemma UnlinkLink<D>(es: seq<Entry<D>>, order: seq<nat>, head: int, tail: int, k: nat, j: nat)
    requires Linked(es, order, head, tail) && k < |order| && j < |order| - 1
    requires InRange(es, es[order[k]].prev) && InRange(es, es[order[k]].next)
    ensures Without(order, k)[j] < |es| && LinkAt(Unlinked(es, order[k]), Without(order, k), j)
  {
    var m := if j < k then j else j + 1;
    assert LinkAt(es, order, m) && LinkAt(es, order, k);
    var r := Without(order, k);
    assert r[j] == order[m];
    assert At(r, j - 1) == if m - 1 == k then At(order, m - 2) else At(order, m - 1);
    assert At(r, j + 1) == if m + 1 == k then At(order, m + 2) else At(order, m + 1);
  }

  lemma UnlinkLinks<D>(es: seq<Entry<D>>, order: seq<nat>, head: int, tail: int, k: nat)
    requires Linked(es, order, head, tail) && k < |order|
    ensures InRange(es, es[order[k]].prev) && InRange(es, es[order[k]].next)
    ensures Linked(Unlinked(es, order[k]), Without(order, k),
                   if es[order[k]].prev >= 0 then head else es[order[k]].next,
                   if es[order[k]].next >= 0 then tail else es[order[k]].prev)
  {
    assert LinkAt(es, order, k);
    WithoutDistinct(order, k);
    forall j | 0 <= j < |order| - 1
      ensures Without(order, k)[j] < |es| && LinkAt(Unlinked(es, order[k]), Without(order, k), j)
    {
      UnlinkLink(es, order, head, tail, k, j);
    }
  }

  lemma PushHeadLinks<D>(es: seq<Entry<D>>, order: seq<nat>, head: int, tail: int, i: nat)
    requires Linked(es, order, head, tail) && i < |es| && i !in order
    ensures Linked(PushedHead(es, i, head), [i] + order, i, if tail < 0 then i else tail)
  {
    var s := [i] + order;
    assert forall k :: 0 < k < |s| ==> s[k] == order[k - 1];
    forall k | 0 <= k < |s| ensures LinkAt(PushedHead(es, i, head), s, k) {
      if k > 0 {
        assert LinkAt(es, order, k - 1);
        assert At(s, k - 1) == if k == 1 then i else At(order, k - 2);
        assert At(s, k + 1) == At(order, k);
      }
    }
  }

  lemma PushTailLinks<D>(es: seq<Entry<D>>, order: seq<nat>, head: int, tail: int, i: nat)
    requires Linked(es, order, head, tail) && i < |es| && i !in order
    ensures Linked(PushedTail(es, i, tail), order + [i], if head < 0 then i else head, i)
  {
    var s := order + [i];
    forall k | 0 <= k < |s| ensures LinkAt(PushedTail(es, i, tail), s, k) {
      if k < |order| {
        assert LinkAt(es, order, k);
        assert At(s, k - 1) == At(order, k - 1);
      }
    }
  }

  lemma ListEnds<D>(es: seq<Entry<D>>, order: seq<nat>, head: int, tail: int)
    requires Linked(es, order, head, tail)
    ensures head == At(order, 0) && tail == At(order, |order| - 1)
    ensures InRange(es, head) && InRange(es, tail)
  {
  }

  // ---- The hash chains ----

  /** Only hash links differ. */
  ghost predicate SameLinks<D>(es: seq<Entry<D>>, es': seq<Entry<D>>) {
    |es| == |es'| && forall i :: 0 <= i < |es| ==> es'[i] == es[i].(hashNext := es'[i].hashNext)
  }

  function Bucket(tag: nat): (b: nat)
    ensures b < BUCKETS
  {
    tag % BUCKETS
  }

  predicate Belongs<D>(es: seq<Entry<D>>, x: int, b: nat, i: nat) {
    i < |es| && i != x && es[i].valid && Bucket(es[i].tag) == b
  }

  /** The chains hold exactly the valid entries other than `x`, each in the bucket of its tag. */
  ghost predicate Hashed<D>(es: seq<Entry<D>>, chains: seq<seq<nat>>, x: int) {
    && |chains| == BUCKETS
    && (forall b: nat, i: nat :: b < BUCKETS ==> (i in chains[b] <==> Belongs(es, x, b, i)))
  }

  ghost predicate Chains<D>(es: seq<Entry<D>>, chains: seq<seq<nat>>, table: seq<int>) {
    && |chains| == |table| == BUCKETS
    && (forall b :: 0 <= b < BUCKETS ==> Chain(es, chains[b], table[b]))
  }

  /** No block is cached twice. */
  predicate OneEach<D>(es: seq<Entry<D>>) {
    forall i, j :: 0 <= i < j < |es| && es[i].valid && es[j].valid ==> es[i].tag != es[j].tag
  }

  predicate Cached<D>(es: seq<Entry<D>>, b: nat) {
    exists i :: 0 <= i < |es| && es[i].valid && es[i].tag == b
  }

  /** Writing entries outside a chain leaves the chain. */
  lemma ChainFrame<D>(es: seq<Entry<D>>, es': seq<Entry<D>>, c: seq<nat>, first: int)
    requires Chain(es, c, first) && |es'| == |es|
    requires forall i :: i in c ==> es'[i].hashNext == es[i].hashNext
    ensures Chain(es', c, first)
  {
    forall k | 0 <= k < |c| ensures es'[c[k]].hashNext == At(c, k + 1) {
      assert c[k] in c;
    }
  }

  lemma PushChain<D>(es: seq<Entry<D>>, c: seq<nat>, first: int, i: nat)
    requires Chain(es, c, first) && i < |es| && i !in c
    ensures Chain(es[i := es[i].(hashNext := first)], [i] + c, i)
  {
    var s := [i] + c;
    assert forall k :: 0 < k < |s| ==> s[k] == c[k - 1];
    forall k | 0 <= k < |s| ensures es[i := es[i].(hashNext := first)][s[k]].hashNext == At(s, k + 1) {
      assert At(s, k + 1) == At(c, k);
    }
  }

  /** The insertion at the head of its bucket of an entry that is in no chain. */
  lemma InsertHash<D>(es: seq<Entry<D>>, chains: seq<seq<nat>>, table: seq<int>, i: nat, b: nat)
    requires Chains(es, chains, table) && Hashed(es, chains, i) && i < |es| && es[i].valid && b == Bucket(es[i].tag)
    ensures var es' := es[i := es[i].(hashNext := table[b])];
      Chains(es', chains[b := [i] + chains[b]], table[b := i]) && Hashed(es', chains[b := [i] + chains[b]], -1)
  {
    hide Chain, Bucket;
    assert i !in chains[b];
    PushChain(es, chains[b], table[b], i);
    var es' := es[i := es[i].(hashNext := table[b])];
    forall j | 0 <= j < BUCKETS && j != b ensures Chain(es', chains[j], table[j]) {
      ChainFrame(es, es', chains[j], table[j]);
    }
  }

  /** The entries with the `k`-th entry of chain `c` taken out. */
  function Unhashed<D>(es: seq<Entry<D>>, c: seq<nat>, k: nat): (r: seq<Entry<D>>)
    requires k < |c| && Inside(c, |es|)
    ensures SameLinks(es, r)
    ensures forall i :: 0 <= i < |es| && i !in c ==> r[i] == es[i]
  {
    var a := if k == 0 then es else es[c[k - 1] := es[c[k - 1]].(hashNext := es[c[k]].hashNext)];
    a[c[k] := a[c[k]].(hashNext := -1)]
  }

  lemma UnhashedNext<D>(es: seq<Entry<D>>, c: seq<nat>, k: nat, i: nat)
    requires k < |c| && Inside(c, |es|) && i < |es|
    ensures Unhashed(es, c, k)[i].hashNext ==
            if i == c[k] then -1 else if k > 0 && i == c[k - 1] then es[c[k]].hashNext else es[i].hashNext
  {
  }

  lemma WithoutAt(s: seq<nat>, k: nat, j: nat, m: nat)
    requires k < |s| && j < |s| - 1 && m == if j < k then j else j + 1
    ensures Without(s, k)[j] == s[m]
    ensures At(Without(s, k), j + 1) == if m + 1 == k then At(s, m + 2) else At(s, m + 1)
  {
  }

  lemma UnhashLink<D>(es: seq<Entry<D>>, c: seq<nat>, first: int, k: nat, j: nat)
    requires Chain(es, c, first) && k < |c| && j < |c| - 1
    ensures Without(c, k)[j] < |es| && Unhashed(es, c, k)[Without(c, k)[j]].hashNext == At(Without(c, k), j + 1)
  {
    hide Without, Unhashed, SameLinks;
    var m := if j < k then j else j + 1;
    assert es[c[m]].hashNext == At(c, m + 1) && es[c[k]].hashNext == At(c, k + 1);
    WithoutAt(c, k, j, m);
    UnhashedNext(es, c, k, c[m]);
  }

  lemma UnhashChain<D>(es: seq<Entry<D>>, c: seq<nat>, first: int, k: nat)
    requires Chain(es, c, first) && k < |c|
    ensures Chain(Unhashed(es, c, k), Without(c, k), if k == 0 then es[c[k]].hashNext else first)
  {
    hide Unhashed;
    WithoutDistinct(c, k);
    forall j | 0 <= j < |c| - 1
      ensures Without(c, k)[j] < |es| && Unhashed(es, c, k)[Without(c, k)[j]].hashNext == At(Without(c, k), j + 1)
    {
      UnhashLink(es, c, first, k, j);
    }
  }

  lemma HashedLess<D>(es: seq<Entry<D>>, es': seq<Entry<D>>, chains: seq<seq<nat>>, b: nat, c: seq<nat>, x: nat)
    requires Hashed(es, chains, -1) && b < BUCKETS && x in chains[b]
    requires forall i: nat :: i in c <==> i in chains[b] && i != x
    requires |es'| == |es| && forall i :: 0 <= i < |es| ==> es'[i].valid == es[i].valid && es'[i].tag == es[i].tag
    ensures Hashed(es', chains[b := c], x)
  {
    hide Bucket;
    forall a: nat, i: nat | a < BUCKETS ensures i in chains[b := c][a] <==> Belongs(es', x, a, i) {
      assert i in chains[a] <==> Belongs(es, -1, a, i);
    }
  }

  lemma RemoveHash<D>(es: seq<Entry<D>>, chains: seq<seq<nat>>, table: seq<int>, b: nat, k: nat)
    requires Chains(es, chains, table) && Hashed(es, chains, -1) && b < BUCKETS && k < |chains[b]|
    requires Chain(es, chains[b], table[b])
    ensures var c := chains[b];
      && Chains(Unhashed(es, c, k), chains[b := Without(c, k)], table[b := if k == 0 then es[c[k]].hashNext else table[b]])
      && Hashed(Unhashed(es, c, k), chains[b := Without(c, k)], c[k])
  {
    var c, r := chains[b], Without(chains[b], k);
    WithoutDistinct(c, k);
    assert c[k] in c;
    hide Chain, Unhashed, Bucket, Distinct;
    var es' := Unhashed(es, c, k);
    UnhashChain(es, c, table[b], k);
    HashedLess(es, es', chains, b, r, c[k]);
    forall j | 0 <= j < BUCKETS && j != b ensures Chain(es', chains[j], table[j]) {
      forall i | i in chains[j] ensures es'[i].hashNext == es[i].hashNext {
        assert Belongs(es, -1, j, i);
        assert i in c ==> Belongs(es, -1, b, i);
      }
      ChainFrame(es, es', chains[j], table[j]);
    }
  }

  // ---- The cache as a view of the disk ----

  predicate EntryOk<D(==)>(e: Entry<D>, disk: seq<D>, logical: seq<D>) {
    e.valid ==> e.tag < |disk| && e.tag < |logical| && e.data == logical[e.tag] && (!e.dirty ==> e.data == disk[e.tag])
  }

  /**
   `logical` is what callers see: a cached entry holds the block's value, a clean entry equals the
   disk, and a block whose disk copy is stale is cached.
   */
  ghost predicate Coherent<D>(es: seq<Entry<D>>, disk: seq<D>, logical: seq<D>) {
    && |disk| == |logical|
    && (forall i :: 0 <= i < |es| ==> EntryOk(es[i], disk, logical))
    && (forall b :: 0 <= b < |disk| && disk[b] != logical[b] ==> Cached(es, b))
  }

  /** Only links differ. */
  ghost predicate SameData<D>(es: seq<Entry<D>>, es': seq<Entry<D>>) {
    && |es| == |es'|
    && (forall i :: 0 <= i < |es| ==>
          && es'[i].data == es[i].data && es'[i].tag == es[i].tag
          && es'[i].valid == es[i].valid && es'[i].dirty == es[i].dirty)
  }

  lemma CachedFrame<D>(es: seq<Entry<D>>, es': seq<Entry<D>>, b: nat)
    requires SameData(es, es') && Cached(es, b)
    ensures Cached(es', b)
  {
    var i :| 0 <= i < |es| && es[i].valid && es[i].tag == b;
    assert es'[i].valid && es'[i].tag == b;
  }

  lemma CoherentFrame<D>(es: seq<Entry<D>>, es': seq<Entry<D>>, disk: seq<D>, logical: seq<D>)
    requires SameData(es, es') && Coherent(es, disk, logical) && OneEach(es)
    ensures Coherent(es', disk, logical) && OneEach(es')
  {
    forall i | 0 <= i < |es'| ensures EntryOk(es'[i], disk, logical) {
      assert EntryOk(es[i], disk, logical);
    }
    forall b | 0 <= b < |disk| && disk[b] != logical[b] ensures Cached(es', b) {
      CachedFrame(es, es', b);
    }
  }

  /** Writing a dirty entry back leaves what callers see. */
  lemma WriteBackCoherent<D>(es: seq<Entry<D>>, disk: seq<D>, logical: seq<D>, i: nat)
    requires Coherent(es, disk, logical) && OneEach(es) && i < |es| && Dirty(es[i])
    ensures es[i].tag < |disk|
    ensures Coherent(es[i := es[i].(dirty := false)], disk[es[i].tag := es[i].data], logical)
    ensures OneEach(es[i := es[i].(dirty := false)])
  {
    assert EntryOk(es[i], disk, logical);
    var es' := es[i := es[i].(dirty := false)];
    forall j | 0 <= j < |es| ensures EntryOk(es'[j], disk[es[i].tag := es[i].data], logical) {
      assert EntryOk(es[j], disk, logical);
    }
    forall b | 0 <= b < |disk| && disk[es[i].tag := es[i].data][b] != logical[b] ensures Cached(es', b) {
      var j :| 0 <= j < |es| && es[j].valid && es[j].tag == b;
      assert es'[j].valid && es'[j].tag == b;
    }
  }

  /** Putting block `b` with value `d` in the place of an entry that is not dirty. */
  lemma InstallCoherent<D>(es: seq<Entry<D>>, disk: seq<D>, logical: seq<D>, v: nat, b: nat, e: Entry<D>)
    requires Coherent(es, disk, logical) && OneEach(es) && v < |es| && !Dirty(es[v]) && !Cached(es, b) && b < |disk|
    requires e.valid && e.tag == b && (!e.dirty ==> e.data == disk[b])
    ensures Coherent(es[v := e], disk, logical[b := e.data]) && OneEach(es[v := e])
    ensures !e.dirty ==> logical[b := e.data] == logical
  {
    var es' := es[v := e];
    assert forall i :: 0 <= i < |es| && es[i].valid ==> es[i].tag != b;
    forall j | 0 <= j < |es| ensures EntryOk(es'[j], disk, logical[b := e.data]) {
      assert EntryOk(es[j], disk, logical);
    }
    forall x | 0 <= x < |disk| && disk[x] != logical[b := e.data][x] ensures Cached(es', x) {
      if x == b {
        assert es'[v].valid && es'[v].tag == b;
      } else {
        var j :| 0 <= j < |es| && es[j].valid && es[j].tag == x;
        assert EntryOk(es[v], disk, logical);
        assert es'[j].valid && es'[j].tag == x;
      }
    }
  }

  /** Overwriting a cached block. */
  lemma RewriteCoherent<D>(es: seq<Entry<D>>, disk: seq<D>, logical: seq<D>, v: nat, d: D)
    requires Coherent(es, disk, logical) && OneEach(es) && v < |es| && es[v].valid
    ensures es[v].tag < |logical|
    ensures Coherent(es[v := es[v].(data := d, dirty := true)], disk, logical[es[v].tag := d])
    ensures OneEach(es[v := es[v].(data := d, dirty := true)])
  {
    var es' := es[v := es[v].(data := d, dirty := true)];
    assert EntryOk(es[v], disk, logical);
    forall j | 0 <= j < |es| ensures EntryOk(es'[j], disk, logical[es[v].tag := d]) {
      assert EntryOk(es[j], disk, logical);
    }
    forall x | 0 <= x < |disk| && disk[x] != logical[es[v].tag := d][x] ensures Cached(es', x) {
      if x == es[v].tag {
        assert es'[v].valid && es'[v].tag == x;
      } else {
        var j :| 0 <= j < |es| && es[j].valid && es[j].tag == x;
        assert es'[j].valid && es'[j].tag == x;
      }
    }
  }

  /** Dropping an entry that is not dirty. */
  lemma DropCoherent<D>(es: seq<Entry<D>>, disk: seq<D>, logical: seq<D>, v: nat)
    requires Coherent(es, disk, logical) && OneEach(es) && v < |es| && !Dirty(es[v])
    ensures Coherent(es[v := es[v].(valid := false, dirty := false)], disk, logical)
    ensures OneEach(es[v := es[v].(valid := false, dirty := false)])
  {
    var es' := es[v := es[v].(valid := false, dirty := false)];
    forall j | 0 <= j < |es| ensures EntryOk(es'[j], disk, logical) {
      assert EntryOk(es[j], disk, logical);
    }
    forall x | 0 <= x < |disk| && disk[x] != logical[x] ensures Cached(es', x) {
      var j :| 0 <= j < |es| && es[j].valid && es[j].tag == x;
      assert EntryOk(es[v], disk, logical);
      assert es'[j].valid && es'[j].tag == x;
    }
  }

  /** With no dirty entry the disk is what callers see. */
  lemma CleanIsDisk<D>(es: seq<Entry<D>>, disk: seq<D>, logical: seq<D>)
    requires Coherent(es, disk, logical) && forall i :: 0 <= i < |es| ==> !Dirty(es[i])
    ensures disk == logical
  {
    assert forall i :: 0 <= i < |es| && es[i].valid ==> EntryOk(es[i], disk, logical) && disk[es[i].tag] == logical[es[i].tag];
  }

  predicate Blank<D>(es: seq<Entry<D>>) {
    forall i :: 0 <= i < |es| ==> !es[i].valid
  }

  /** With no valid entry and empty chains, callers see the disk. */
  lemma BlankCache<D>(es: seq<Entry<D>>, chains: seq<seq<nat>>, table: seq<int>, disk: seq<D>)
    requires Blank(es) && |chains| == |table| == BUCKETS
    requires forall b :: 0 <= b < BUCKETS ==> chains[b] == [] && table[b] == -1
    ensures Chains(es, chains, table) && Hashed(es, chains, -1) && OneEach(es) && Coherent(es, disk, disk)
  {
  }

  // ---- What each part of an entry decides ----

  /** List links decide nothing about the hash chains or the contents. */
  lemma BodyFrame<D>(es: seq<Entry<D>>, es': seq<Entry<D>>, chains: seq<seq<nat>>, table: seq<int>, x: int)
    requires SameBody(es, es') && Chains(es, chains, table) && Hashed(es, chains, x)
    ensures Chains(es', chains, table) && Hashed(es', chains, x) && SameData(es, es')
  {
    hide Bucket;
    forall b | 0 <= b < BUCKETS ensures Chain(es', chains[b], table[b]) {
      assert Chain(es, chains[b], table[b]);
    }
    forall b: nat, i: nat | b < BUCKETS ensures i in chains[b] <==> Belongs(es', x, b, i) {
      assert i in chains[b] <==> Belongs(es, x, b, i);
    }
  }

  /** Hash links and contents decide nothing about the LRU list. */
  lemma LruFrame<D>(es: seq<Entry<D>>, es': seq<Entry<D>>, order: seq<nat>, head: int, tail: int)
    requires Linked(es, order, head, tail) && |es'| == |es|
    requires forall i :: 0 <= i < |es| ==> es'[i].prev == es[i].prev && es'[i].next == es[i].next
    ensures Linked(es', order, head, tail)
  {
    forall k | 0 <= k < |order| ensures LinkAt(es', order, k) {
      assert LinkAt(es, order, k);
    }
  }

  /** An entry outside the chains may change its contents; one inside only where its bucket stays. */
  lemma ContentsFrame<D>(es: seq<Entry<D>>, chains: seq<seq<nat>>, table: seq<int>, x: int, v: nat, e: Entry<D>)
    requires Chains(es, chains, table) && Hashed(es, chains, x) && v < |es| && e.hashNext == es[v].hashNext
    requires x == v || (e.valid == es[v].valid && e.tag == es[v].tag)
    ensures Chains(es[v := e], chains, table) && Hashed(es[v := e], chains, x)
  {
    hide Bucket;
    forall b | 0 <= b < BUCKETS ensures Chain(es[v := e], chains[b], table[b]) {
      assert Chain(es, chains[b], table[b]);
    }
    forall b: nat, i: nat | b < BUCKETS ensures i in chains[b] <==> Belongs(es[v := e], x, b, i) {
      assert i in chains[b] <==> Belongs(es, x, b, i);
    }
  }

  /** An invalid entry is in no chain. */
  lemma HashedWithout<D>(es: seq<Entry<D>>, chains: seq<seq<nat>>, x: int, v: nat)
    requires Hashed(es, chains, x) && v < |es| && !es[v].valid && (x == -1 || x == v)
    ensures Hashed(es, chains, v) && Hashed(es, chains, -1)
  {
    hide Bucket;
    forall b: nat, i: nat | b < BUCKETS
      ensures (i in chains[b] <==> Belongs(es, v, b, i)) && (i in chains[b] <==> Belongs(es, -1, b, i))
    {
      assert i in chains[b] <==> Belongs(es, x, b, i);
    }
  }

  // ---- Steps seen by a concurrent flush ----

  datatype Snap<D> = Snap(es: seq<Entry<D>>, disk: seq<D>, logical: seq<D>)

  ghost predicate Sound<D>(s: Snap<D>) {
    |s.es| == ENTRIES && Coherent(s.es, s.disk, s.logical) && OneEach(s.es)
  }

  /** A dirty entry stays where it is, dirty with the same block, or its value reaches the disk. */
  predicate KeepsDirty<D(==)>(s: Snap<D>, s': Snap<D>, i: nat)
    requires i < |s.es| == |s'.es|
  {
    Dirty(s.es[i]) ==>
      || (Dirty(s'.es[i]) && s'.es[i].tag == s.es[i].tag)
      || (s.es[i].tag < |s'.disk| && s.es[i].tag < |s.logical| && s'.disk[s.es[i].tag] == s.logical[s.es[i].tag])
  }

  /** What one lock section of any cache call does to the disk: blocks change only to their current value. */
  ghost predicate Honest<D>(s: Snap<D>, s': Snap<D>) {
    && |s.es| == |s'.es| && |s.disk| == |s'.disk| == |s.logical| == |s'.logical|
    && (forall b :: 0 <= b < |s.disk| ==> s'.disk[b] == s.disk[b] || s'.disk[b] == s.logical[b])
    && (forall i :: 0 <= i < |s.es| ==> KeepsDirty(s, s', i))
  }

  /** The lock section of a flush for entry `i`. */
  predicate FlushStep<D(==)>(s: Snap<D>, s': Snap<D>, i: nat) {
    && i < |s.es| && s'.logical == s.logical
    && if Dirty(s.es[i]) then
         s.es[i].tag < |s.disk| && s'.disk == s.disk[s.es[i].tag := s.es[i].data] && s'.es == s.es[i := s.es[i].(dirty := false)]
       else
         s' == s
  }

  lemma FlushHonest<D>(s: Snap<D>, s': Snap<D>, i: nat)
    requires Sound(s) && FlushStep(s, s', i)
    ensures Sound(s') && Honest(s, s')
  {
    if Dirty(s.es[i]) {
      assert EntryOk(s.es[i], s.disk, s.logical);
      WriteBackCoherent(s.es, s.disk, s.logical, i);
    }
  }

  /** A lock section that touches the data of one entry only, writing it back first if it must. */
  lemma HonestStep<D>(s: Snap<D>, s': Snap<D>, v: nat)
    requires Sound(s) && Sound(s') && v < ENTRIES && |s'.disk| == |s.disk|
    requires forall i :: 0 <= i < ENTRIES && i != v && Dirty(s.es[i]) ==> Dirty(s'.es[i]) && s'.es[i].tag == s.es[i].tag
    requires || (s'.disk == s.disk && (Dirty(s.es[v]) ==> Dirty(s'.es[v]) && s'.es[v].tag == s.es[v].tag))
             || (Dirty(s.es[v]) && s.es[v].tag < |s.disk| && s'.disk == s.disk[s.es[v].tag := s.es[v].data])
    ensures Honest(s, s')
  {
    assert EntryOk(s.es[v], s.disk, s.logical);
  }

  /** Eviction brings no block in. */
  lemma EvictedMiss<D>(s: Snap<D>, t: Snap<D>, es: seq<Entry<D>>, v: nat, b: nat)
    requires FlushStep(s, t, v) && SameLinks(t.es, es) && !Cached(s.es, b)
    ensures !Cached(es, b)
  {
    assert forall i :: 0 <= i < |s.es| && s.es[i].valid ==> s.es[i].tag != b;
    assert forall i :: 0 <= i < |es| ==> es[i].valid == s.es[i].valid && es[i].tag == s.es[i].tag;
  }

  /** Evicting entry `v` and then giving it to another block is honest. */
  lemma HonestMiss<D>(s: Snap<D>, t: Snap<D>, s': Snap<D>, v: nat)
    requires Sound(s) && FlushStep(s, t, v) && Sound(s') && s'.disk == t.disk
    requires forall i :: 0 <= i < ENTRIES && i != v && Dirty(t.es[i]) ==> Dirty(s'.es[i]) && s'.es[i].tag == t.es[i].tag
    ensures Honest(s, s')
  {
    hide Sound, Honest;
    assert |s.es| == ENTRIES && |s'.es| == ENTRIES && |s'.disk| == |s.disk| by { SoundSizes(s); SoundSizes(s'); }
    HonestStep(s, s', v);
  }

  lemma SoundSizes<D>(s: Snap<D>)
    requires Sound(s)
    ensures |s.es| == ENTRIES && |s.disk| == |s.logical|
  {
  }

  /** Every block already holds some value from time `start` on, or is dirty in a slot not yet flushed. */
  ghost predicate Settled<D>(tr: seq<Snap<D>>, start: nat, t: nat, b: nat)
    requires t < |tr| && b < |tr[t].disk|
  {
    exists u :: start <= u <= t && b < |tr[u].logical| && tr[t].disk[b] == tr[u].logical[b]
  }

  predicate Pending<D>(s: Snap<D>, n: nat, b: nat) {
    exists i :: n <= i < |s.es| && Dirty(s.es[i]) && s.es[i].tag == b
  }

  /** A run in which every lock section keeps the cache sound and is honest. */
  ghost predicate Trace<D>(tr: seq<Snap<D>>) {
    && (forall t :: 0 <= t < |tr| ==> Sound(tr[t]))
    && (forall t, t' :: 0 <= t < |tr| && 0 <= t' < |tr| && t' == t + 1 ==> Honest(tr[t], tr[t']))
  }

  /** One flush runs inside the trace: its `i`-th lock section is the step at time `f[i]`. */
  ghost predicate FlushIn<D>(tr: seq<Snap<D>>, f: seq<nat>) {
    && |f| == ENTRIES
    && (forall i, j :: 0 <= i < j < ENTRIES ==> f[i] < f[j])
    && (forall i :: 0 <= i < ENTRIES ==> f[i] + 1 < |tr| && FlushStep(tr[f[i]], tr[f[i] + 1], i))
  }

  lemma SettledStep<D>(tr: seq<Snap<D>>, start: nat, t: nat, t': nat, b: nat)
    requires Trace(tr) && start <= t < |tr| && t' == t + 1 < |tr|
    requires b < |tr[t].disk| && Settled(tr, start, t, b)
    ensures b < |tr[t'].disk| && Settled(tr, start, t', b)
  {
    assert Honest(tr[t], tr[t']);
    var u :| start <= u <= t && b < |tr[u].logical| && tr[t].disk[b] == tr[u].logical[b];
  }

  lemma PendingStep<D>(tr: seq<Snap<D>>, start: nat, t: nat, t': nat, n: nat, b: nat)
    requires Trace(tr) && start <= t < |tr| && t' == t + 1 < |tr|
    requires b < |tr[t].disk| && Pending(tr[t], n, b)
    ensures b < |tr[t'].disk| && (Settled(tr, start, t', b) || Pending(tr[t'], n, b))
  {
    assert Honest(tr[t], tr[t']);
    var i :| n <= i < |tr[t].es| && Dirty(tr[t].es[i]) && tr[t].es[i].tag == b;
    assert KeepsDirty(tr[t], tr[t'], i);
  }

  lemma PendingFlush<D>(tr: seq<Snap<D>>, start: nat, t: nat, t': nat, n: nat, b: nat)
    requires Trace(tr) && start <= t < |tr| && t' == t + 1 < |tr|
    requires n < ENTRIES && FlushStep(tr[t], tr[t'], n)
    requires b < |tr[t].disk| && Pending(tr[t], n, b)
    ensures b < |tr[t'].disk| && (Settled(tr, start, t', b) || Pending(tr[t'], n + 1, b))
  {
    assert Honest(tr[t], tr[t']) && Sound(tr[t]);
    var i :| n <= i < |tr[t].es| && Dirty(tr[t].es[i]) && tr[t].es[i].tag == b;
    assert EntryOk(tr[t].es[i], tr[t].disk, tr[t].logical);
    if i == n {
      assert tr[t'].disk[b] == tr[t].logical[b];
    } else {
      assert tr[t'].es[i] == tr[t].es[i];
    }
  }

  lemma FlushStart<D>(tr: seq<Snap<D>>, t: nat, b: nat)
    requires Trace(tr) && t < |tr| && b < |tr[t].disk|
    ensures Settled(tr, t, t, b) || Pending(tr[t], 0, b)
  {
    assert Sound(tr[t]);
    if tr[t].disk[b] != tr[t].logical[b] {
      var i :| 0 <= i < |tr[t].es| && tr[t].es[i].valid && tr[t].es[i].tag == b;
      assert EntryOk(tr[t].es[i], tr[t].disk, tr[t].logical);
      assert Pending(tr[t], 0, b);
    }
  }

  /** The invariant of an interleaved flush with `n` lock sections done before time `t`. */
  lemma {:induction false} FlushProgress<D>(tr: seq<Snap<D>>, f: seq<nat>, t: nat, n: nat, b: nat)
    requires Trace(tr) && FlushIn(tr, f) && f[0] <= t < |tr| && n <= ENTRIES
    requires n == 0 || f[n - 1] < t
    requires n == ENTRIES || t <= f[n]
    requires b < |tr[f[0]].disk|
    ensures b < |tr[t].disk| && (Settled(tr, f[0], t, b) || Pending(tr[t], n, b))
    decreases t
  {
    hide Sound, Honest, FlushStep, Settled, Pending;
    if t == f[0] {
      assert n == 0;
      FlushStart(tr, t, b);
    } else if n > 0 && f[n - 1] == t - 1 {
      FlushProgress(tr, f, t - 1, n - 1, b);
      if Settled(tr, f[0], t - 1, b) {
        SettledStep(tr, f[0], t - 1, t, b);
      } else {
        PendingFlush(tr, f[0], t - 1, t, n - 1, b);
      }
    } else {
      FlushProgress(tr, f, t - 1, n, b);
      if Settled(tr, f[0], t - 1, b) {
        SettledStep(tr, f[0], t - 1, t, b);
      } else {
        PendingStep(tr, f[0], t - 1, t, n, b);
      }
    }
  }

  /**
   Durability under interleaving: at any time after the flush's last lock section, every block on
   disk holds a value that callers saw at or after the moment the flush began, whatever reads,
   writes, evictions, invalidations or other flushes ran in between.
   */
  lemma FlushDurable<D>(tr: seq<Snap<D>>, f: seq<nat>, t: nat, b: nat)
    requires Trace(tr) && FlushIn(tr, f) && f[ENTRIES - 1] < t < |tr|
    requires b < |tr[f[0]].disk|
    ensures b < |tr[t].disk|
    ensures exists u :: f[0] <= u <= t && b < |tr[u].logical| && tr[t].disk[b] == tr[u].logical[b]
  {
    assert Sound(tr[t]);
    FlushProgress(tr, f, t, ENTRIES, b);
    assert !Pending(tr[t], ENTRIES, b);
    assert Settled(tr, f[0], t, b);
  }

  // ---- Recording such a run ----

  /** What happens next: a lock section of the flush that is watched, one of another flush, or a call. */
  datatype Section<D> = Own | Other(i: nat) | Call(op: Op<D>)

  predicate InReach<D>(s: Section<D>, n: nat) {
    match s
    case Own => true
    case Other(i) => i < ENTRIES
    case Call(op) => !op.Flush? && op.b < n
  }

  /** The first `|f|` lock sections of the watched flush. */
  ghost predicate FlushPart<D>(tr: seq<Snap<D>>, f: seq<nat>) {
    && |f| <= ENTRIES
    && (forall i, j :: 0 <= i < j < |f| ==> f[i] < f[j])
    && (forall i :: 0 <= i < |f| ==> f[i] + 1 < |tr| && FlushStep(tr[f[i]], tr[f[i] + 1], i))
  }

  lemma TraceNext<D>(tr: seq<Snap<D>>, s: Snap<D>)
    requires Trace(tr) && Sound(s) && (tr != [] ==> Honest(tr[|tr| - 1], s))
    ensures Trace(tr + [s])
  {
    hide Sound, Honest;
    var r := tr + [s];
    forall t, t' | 0 <= t < |r| && 0 <= t' < |r| && t' == t + 1 ensures Honest(r[t], r[t']) {
      if t' < |tr| { assert Honest(tr[t], tr[t']); }
    }
  }

  lemma StartTrace<D>(s: Snap<D>)
    requires Sound(s)
    ensures Trace([s]) && FlushPart([s], [])
  {
    hide Sound;
  }

  lemma StillHonest<D>(s: Snap<D>)
    requires Sound(s)
    ensures Honest(s, s)
  {
  }

  lemma PartInside<D>(tr: seq<Snap<D>>, f: seq<nat>)
    requires FlushPart(tr, f)
    ensures forall i :: 0 <= i < |f| ==> f[i] < |tr|
  {
  }

  lemma PartKept<D>(tr: seq<Snap<D>>, f: seq<nat>, s: Snap<D>)
    requires FlushPart(tr, f)
    ensures FlushPart(tr + [s], f)
  {
    hide FlushStep;
    var r := tr + [s];
    forall i | 0 <= i < |f| ensures f[i] + 1 < |r| && FlushStep(r[f[i]], r[f[i] + 1], i) {
      assert r[f[i]] == tr[f[i]] && r[f[i] + 1] == tr[f[i] + 1];
    }
  }

  lemma PartNext<D>(tr: seq<Snap<D>>, f: seq<nat>, s: Snap<D>)
    requires FlushPart(tr, f) && |f| < ENTRIES && tr != [] && FlushStep(tr[|tr| - 1], s, |f|)
    ensures FlushPart(tr + [s], f + [|tr| - 1])
  {
    hide FlushStep;
    PartKept(tr, f, s);
    assert forall i :: 0 <= i < |f| ==> f[i] < |tr| - 1;
  }

  /** Block `b` holds a value that callers saw at or after time `start`. */
  ghost predicate Durable<D>(tr: seq<Snap<D>>, start: nat, d: seq<D>, b: nat)
    requires b < |d|
  {
    exists u :: start <= u < |tr| && b < |tr[u].logical| && d[b] == tr[u].logical[b]
  }

  lemma PartDurable<D>(tr: seq<Snap<D>>, f: seq<nat>, b: nat)
    requires Trace(tr) && FlushPart(tr, f) && |f| == ENTRIES && b < |tr[f[0]].disk|
    ensures b < |tr[|tr| - 1].disk| && Durable(tr, f[0], tr[|tr| - 1].disk, b)
  {
    assert FlushIn(tr, f);
    FlushDurable(tr, f, |tr| - 1, b);
  }

  // ---- The reference: a plain block map ----

  datatype Op<D> = Read(b: nat) | Write(b: nat, d: D) | Invalidate(b: nat) | Flush

  function Effect<D>(m: seq<D>, op: Op<D>): (m': seq<D>)
    ensures |m'| == |m|
  {
    if op.Write? && op.b < |m| then m[op.b := op.d] else m
  }

  function After<D>(m: seq<D>, ops: seq<Op<D>>): (m': seq<D>)
    ensures |m'| == |m|
  {
    if ops == [] then m else Effect(After(m, ops[..|ops| - 1]), ops[|ops| - 1])
  }

  predicate Writes<D>(op: Op<D>, b: nat) {
    op.Write? && op.b == b
  }

  /** The block map holds the value of the last operation that writes the block. */
  lemma {:induction false} AfterLast<D>(m: seq<D>, ops: seq<Op<D>>, b: nat, t: nat)
    requires b < |m| && t < |ops| && Writes(ops[t], b)
    requires forall u :: t < u < |ops| ==> !Writes(ops[u], b)
    ensures After(m, ops)[b] == ops[t].d
    decreases |ops|
  {
    var n := |ops| - 1;
    if t < n {
      AfterLast(m, ops[..n], b, t);
    }
  }

  /** A block that no operation writes keeps its initial value. */
  lemma {:induction false} AfterNone<D>(m: seq<D>, ops: seq<Op<D>>, b: nat)
    requires b < |m| && forall u :: 0 <= u < |ops| ==> !Writes(ops[u], b)
    ensures After(m, ops)[b] == m[b]
    decreases |ops|
  {
    if ops != [] {
      AfterNone(m, ops[..|ops| - 1], b);
    }
  }
}
