/**
 Reading file data: the block-by-block path, and the fast path that trusts a few spot checks.
 */
module ReadPath {
  import opened BlockTree
  import opened FileTree
  import opened Accounts
  import opened FileData

  /** `out` is the file from `off` on, up to `len` bytes or the first hole. */
  ghost predicate ReadsFile(st: Store, ptr: Roots, off: nat, len: nat, out: seq<byte>) {
    && |out| <= len && off + len <= MAX_POS
    && (forall i :: 0 <= i < |out| ==> FileByte(st, ptr, off + i) == Byte(out[i]))
    && (|out| < len ==> FileByte(st, ptr, off + |out|) == Hole)
  }

  /** That determines the bytes. */
  lemma ReadsFileUnique(st: Store, ptr: Roots, off: nat, len: nat, a: seq<byte>, b: seq<byte>)
    requires ReadsFile(st, ptr, off, len, a) && ReadsFile(st, ptr, off, len, b)
    ensures a == b
  {
    hide FileByte;
    forall pos | off <= pos < off + |a| ensures FileByte(st, ptr, pos) != Hole { assert Byte(a[pos - off]) != Hole; }
    forall pos | off <= pos < off + |b| ensures FileByte(st, ptr, pos) != Hole { assert Byte(b[pos - off]) != Hole; }
    if |a| < len { assert FileByte(st, ptr, off + |a|) == Hole; }
    if |b| < len { assert FileByte(st, ptr, off + |b|) == Hole; }
    assert |a| == |b|;
    forall i | 0 <= i < |a| ensures a[i] == b[i] {
      assert Byte(a[i]) == FileByte(st, ptr, off + i) == Byte(b[i]);
    }
  }

  // ----- Spot checks -----

  /** `n` logical blocks from `a` on are `n` consecutive disk blocks. */
  ghost predicate Consecutive(st: Store, ptr: Roots, a: nat, n: nat) {
    a + n <= MAX_LOGICAL && forall m :: a <= m < a + n ==>
      Lookup(st, ptr, m) != 0 && Lookup(st, ptr, m) == Lookup(st, ptr, a) + (m - a)
  }

  predicate SpotAt(st: Store, ptr: Roots, a: nat, n: nat, c: nat)
    requires a + n <= MAX_LOGICAL && n > 0
  {
    c == 0 || c >= n || Lookup(st, ptr, a + c) == Lookup(st, ptr, a) + c
  }

  /** The four positions that `limnfs_read_data_sequential` looks at. */
  predicate SpotOk(st: Store, ptr: Roots, a: nat, n: nat)
    requires a + n <= MAX_LOGICAL && n > 0
  {
    && Lookup(st, ptr, a) != 0 && SpotAt(st, ptr, a, n, 1) && SpotAt(st, ptr, a, n, n / 4)
    && SpotAt(st, ptr, a, n, n / 2) && SpotAt(st, ptr, a, n, n - 1)
  }

  /** The disk blocks of the range are in ascending order. */
  ghost predicate Ascending(st: Store, ptr: Roots, a: nat, n: nat) {
    a + n <= MAX_LOGICAL && forall l, m :: a <= l < m < a + n ==> Lookup(st, ptr, l) < Lookup(st, ptr, m)
  }

  lemma {:induction false} AscendingGap(st: Store, ptr: Roots, a: nat, n: nat, i: nat, j: nat)
    requires Ascending(st, ptr, a, n) && a <= i <= j < a + n
    ensures Lookup(st, ptr, j) >= Lookup(st, ptr, i) + (j - i)
    decreases j - i
  {
    hide Lookup;
    if i < j {
      AscendingGap(st, ptr, a, n, i, j - 1);
      assert Lookup(st, ptr, j - 1) < Lookup(st, ptr, j);
    }
  }

  /** For an ascending range the spot check at the last block forces every block into place. */
  lemma SpotCheckSound(st: Store, ptr: Roots, a: nat, n: nat)
    requires Ascending(st, ptr, a, n) && n > 0 && SpotOk(st, ptr, a, n)
    ensures Consecutive(st, ptr, a, n)
  {
    hide Lookup;
    forall m | a <= m < a + n ensures Lookup(st, ptr, m) != 0 && Lookup(st, ptr, m) == Lookup(st, ptr, a) + (m - a) {
      AscendingGap(st, ptr, a, n, a, m);
      AscendingGap(st, ptr, a, n, m, a + n - 1);
    }
  }

  /** What the fast path takes byte `pos` to be: it counts blocks from the first one. */
  function FastByte(st: Store, first: nat, a: nat, pos: nat): Cell
    requires a <= pos / BLOCK_SIZE
  {
    var b := first + (pos / BLOCK_SIZE - a);
    if b < |st| then Byte(ByteAt(st[b], pos % BLOCK_SIZE)) else Hole
  }

  /** On consecutive blocks the fast path reads the file. */
  lemma FastIfConsecutive(st: Store, ptr: Roots, a: nat, n: nat, pos: nat)
    requires FileOk(st, ptr) && Consecutive(st, ptr, a, n) && a <= pos / BLOCK_SIZE < a + n
    ensures pos < MAX_POS && FastByte(st, Lookup(st, ptr, a), a, pos) == FileByte(st, ptr, pos)
  {
    hide Tree, In, FileOk, Walk, SlotOf, ByteAt;
    var k := pos / BLOCK_SIZE - a;
    LookupData(st, ptr, a + k);
  }

  /**
   And only then: if one block of the range is out of place, the same map with other data in that
   block is a file which the fast path misreads.
   */
  lemma FastOnlyIfConsecutive(st: Store, ptr: Roots, a: nat, n: nat, k: nat) returns (st': Store)
    requires FileOk(st, ptr) && a + n <= MAX_LOGICAL && k < n && Lookup(st, ptr, a) != 0
    requires Lookup(st, ptr, a + k) != Lookup(st, ptr, a) + k
    ensures SameFile(st, st', ptr) && |st'| == |st|
    ensures FastByte(st', Lookup(st', ptr, a), a, (a + k) * BLOCK_SIZE) == Hole ||
            FastByte(st', Lookup(st', ptr, a), a, (a + k) * BLOCK_SIZE) != FileByte(st', ptr, (a + k) * BLOCK_SIZE)
  {
    hide Tree, In, FileIn, FileOk, Walk;
    var d, b, pos := Lookup(st, ptr, a + k), Lookup(st, ptr, a) + k, (a + k) * BLOCK_SIZE;
    st' := st;
    if d == 0 {
      FileFrame(st, st, ptr);
    } else {
      LookupData(st, ptr, a + k);
      var w: Block := if b < |st| && ByteAt(st[b], 0) == 0 then SetByte(ZERO_BLOCK, 0, 1) else ZERO_BLOCK;
      SetByteOne(ZERO_BLOCK, 0, 1, 0);
      ZeroBytes(0);
      st' := st[d := w];
      StoredBytes(st, ptr, a + k, w, pos);
      assert Proper(SlotOf(a)) && At(st', ptr, SlotOf(a)) == At(st, ptr, SlotOf(a));
    }
  }

  /** A file of distinct direct blocks is well formed. */
  lemma DirectFile(st: Store, ptr: Roots)
    requires (forall r :: 0 <= r < DIRECT ==> ptr[r] < |st|) && (forall r :: DIRECT <= r < 13 ==> ptr[r] == 0)
    requires forall r, s :: 0 <= r < s < DIRECT && ptr[r] != 0 ==> ptr[r] != ptr[s]
    ensures FileOk(st, ptr) && forall n :: 0 <= n < DIRECT ==> Lookup(st, ptr, n) == ptr[n]
  {
    forall r, s | 0 <= r < s < 13 ensures Apart(st, ptr[r], Level(r), ptr[s], Level(s)) {}
    forall n | 0 <= n < DIRECT ensures Lookup(st, ptr, n) == ptr[n] { DirectSlot(st, ptr, n); }
  }

  /** Eight direct blocks with the fourth one elsewhere pass the spot checks. */
  lemma FooledMap(st: Store, ptr: Roots)
    requires |st| >= 100 && ptr == [50, 51, 52, 99, 54, 55, 56, 57, 0, 0, 0, 0, 0]
    ensures FileOk(st, ptr) && Fast(st, ptr, 0, 32 * 1024) && Lookup(st, ptr, 0) == 50 && Lookup(st, ptr, 3) == 99
  {
    DirectFile(st, ptr);
    hide Lookup, FileOk;
  }

  /** The spot checks alone do not see a block elsewhere: with the right data in it the sequential path misreads the file. */
  lemma SpotCheckFooled(st: Store) returns (st': Store)
    requires |st| >= 100
    ensures var ptr: Roots := [50, 51, 52, 99, 54, 55, 56, 57, 0, 0, 0, 0, 0];
            && FileOk(st', ptr) && Fast(st', ptr, 0, 32 * 1024) && !Consecutive(st', ptr, 0, 8)
            && FastByte(st', Lookup(st', ptr, 0), 0, 3 * BLOCK_SIZE) != FileByte(st', ptr, 3 * BLOCK_SIZE)
  {
    var ptr: Roots := [50, 51, 52, 99, 54, 55, 56, 57, 0, 0, 0, 0, 0];
    FooledMap(st, ptr);
    hide Lookup, FileOk, ByteAt, Fast, SameFile;
    st' := FastOnlyIfConsecutive(st, ptr, 0, 8, 3);
    FooledMap(st', ptr);
  }

  // ----- Which block each byte is taken from -----

  /** The logical blocks that lie wholly in the `len` bytes from `off` on. */
  function Wholes(off: nat, len: nat): set<nat> {
    set m: nat | off / BLOCK_SIZE <= m <= (off + len) / BLOCK_SIZE && Whole(off, len, m)
  }

  predicate Whole(off: nat, len: nat, m: nat) { off <= m * BLOCK_SIZE && (m + 1) * BLOCK_SIZE <= off + len }

  /** How far logical blocks from `lb` on are consecutive on disk, counted from `run` up to `cap`. */
  function RunFrom(st: Store, ptr: Roots, lb: nat, cap: nat, run: nat): (r: nat)
    requires 1 <= run <= cap && lb + cap <= MAX_LOGICAL
    ensures run <= r <= cap
    decreases cap - run
  {
    if run < cap && Lookup(st, ptr, lb + run) == Lookup(st, ptr, lb) + run then RunFrom(st, ptr, lb, cap, run + 1) else run
  }

  /** The number of blocks that one round of the block-by-block path takes: a run of at most 8 whole ones, or one. */
  function RoundOf(st: Store, ptr: Roots, off: nat, len: nat, p: nat): (r: nat)
    requires p < len && off + len <= MAX_POS
    ensures 1 <= r && (r > 1 ==> (off + p) % BLOCK_SIZE == 0 && r * BLOCK_SIZE <= len - p)
    ensures (off + p) / BLOCK_SIZE + r <= MAX_LOGICAL
  {
    var max := (len - p) / BLOCK_SIZE;
    if (off + p) % BLOCK_SIZE == 0 && max >= 1 then RunFrom(st, ptr, (off + p) / BLOCK_SIZE, if max > 8 then 8 else max, 1) else 1
  }

  /** The bytes of that round. */
  function RoundBytes(off: nat, len: nat, p: nat, run: nat): (c: nat)
    requires p < len && 1 <= run
    ensures c > 0
  {
    if run > 1 then run * BLOCK_SIZE
    else
      var chunk := BLOCK_SIZE - (off + p) % BLOCK_SIZE;
      if chunk > len - p then len - p else chunk
  }

  predicate InStretch(lb: nat, run: nat, m: nat) { lb <= m < lb + run }

  function Stretch(lb: nat, run: nat): set<nat> { set m: nat | lb <= m < lb + run && InStretch(lb, run, m) }

  /** The logical blocks that the block-by-block path fetches past the cache, from byte `p` of the request on. */
  function BulkFrom(st: Store, ptr: Roots, off: nat, len: nat, p: nat): set<nat>
    requires p <= len && off + len <= MAX_POS
    decreases len - p
  {
    if p == len || Lookup(st, ptr, (off + p) / BLOCK_SIZE) == 0 then {}
    else
      var run := RoundOf(st, ptr, off, len, p);
      (if run > 1 then Stretch((off + p) / BLOCK_SIZE, run) else {}) + BulkFrom(st, ptr, off, len, p + RoundBytes(off, len, p, run))
  }

  /** Whether `limnfs_read_data` takes the sequential path. */
  predicate Fast(st: Store, ptr: Roots, off: nat, len: nat)
    requires off + len <= MAX_POS
  {
    len >= 32 * 1024 && SpotOk(st, ptr, off / BLOCK_SIZE, (off + len - 1) / BLOCK_SIZE - off / BLOCK_SIZE + 1)
  }

  /** The logical blocks that a read fetches past the cache. */
  function Bulk(st: Store, ptr: Roots, off: nat, len: nat): set<nat>
    requires off + len <= MAX_POS
  {
    if Fast(st, ptr, off, len) then Wholes(off, len) else BulkFrom(st, ptr, off, len, 0)
  }

  /** The disk block taken for logical block `m`: counted from the first one on the sequential path, else looked up. */
  function Place(st: Store, ptr: Roots, off: nat, fast: bool, m: nat): nat
    requires off / BLOCK_SIZE <= m < MAX_LOGICAL
  {
    if fast then Lookup(st, ptr, off / BLOCK_SIZE) + (m - off / BLOCK_SIZE) else Lookup(st, ptr, m)
  }

  /** On the device every block is as in `d0`, or has meanwhile been written back from the cache. */
  ghost predicate Settles(d0: Store, d1: Store, st: Store) {
    |d0| == |d1| == |st| && forall x :: 0 <= x < |st| ==> d1[x] == d0[x] || d1[x] == st[x]
  }

  lemma SettlesTrans(a: Store, b: Store, c: Store, st: Store)
    requires Settles(a, b, st) && Settles(b, c, st)
    ensures Settles(a, c, st)
  {
  }

  /** `b` is what the device held in block `d` at some time between `d0` and `d1`. */
  predicate Between(d0: Store, d1: Store, st: Store, d: nat, b: Block) {
    d < |d0| == |d1| == |st| && (b == d0[d] || b == st[d]) && (d1[d] == b || d1[d] == st[d])
  }

  /** Block `b` stands for disk block `d`: fetched from the device, or read through the cache. */
  predicate From(d0: Store, d1: Store, st: Store, bulk: bool, d: nat, b: Block) {
    0 < d < |st| && if bulk then Between(d0, d1, st, d, b) else b == st[d]
  }

  predicate ShownAt(used: map<nat, Block>, pos: nat, v: byte) {
    pos / BLOCK_SIZE in used && v == ByteAt(used[pos / BLOCK_SIZE], pos % BLOCK_SIZE)
  }

  /** The output consists of the bytes of the blocks in `used`. */
  ghost predicate Shows(used: map<nat, Block>, off: nat, out: seq<byte>) {
    forall i :: 0 <= i < |out| ==> ShownAt(used, off + i, out[i])
  }

  /** Block `m` of `used` is touched by the first `got` bytes and was taken from its place, past the cache if in `bulk`. */
  predicate SourceOf(st: Store, ptr: Roots, d0: Store, d1: Store, off: nat, fast: bool, bulk: set<nat>, used: map<nat, Block>, got: nat, m: nat) {
    && m in used && got > 0 && off / BLOCK_SIZE <= m < MAX_LOGICAL && m * BLOCK_SIZE < off + got
    && From(d0, d1, st, m in bulk, Place(st, ptr, off, fast, m), used[m])
  }

  ghost predicate Sourced(st: Store, ptr: Roots, d0: Store, d1: Store, off: nat, fast: bool, bulk: set<nat>, used: map<nat, Block>, got: nat) {
    && (forall m :: m in used ==> SourceOf(st, ptr, d0, d1, off, fast, bulk, used, got, m))
    && (forall m :: m in bulk ==> m in used && Whole(off, got, m))
  }

  lemma SourcedLater(st: Store, ptr: Roots, d0: Store, d1: Store, d2: Store, off: nat, fast: bool, bulk: set<nat>, used: map<nat, Block>, got: nat)
    requires Sourced(st, ptr, d0, d1, off, fast, bulk, used, got) && Settles(d1, d2, st)
    ensures Sourced(st, ptr, d0, d2, off, fast, bulk, used, got)
  {
    hide Place, Whole;
    forall m | m in used ensures SourceOf(st, ptr, d0, d2, off, fast, bulk, used, got, m) {
      assert SourceOf(st, ptr, d0, d1, off, fast, bulk, used, got, m);
    }
  }

  lemma ShowsMore(used: map<nat, Block>, used': map<nat, Block>, off: nat, out: seq<byte>, data: seq<byte>)
    requires Shows(used, off, out) && forall m :: m in used ==> m in used' && used'[m] == used[m]
    requires forall j :: 0 <= j < |data| ==> ShownAt(used', off + |out| + j, data[j])
    ensures Shows(used', off, out + data)
  {
    hide ByteAt;
    forall i | 0 <= i < |out + data| ensures ShownAt(used', off + i, (out + data)[i]) {
      if i < |out| {
        assert ShownAt(used, off + i, out[i]);
      } else {
        assert ShownAt(used', off + |out| + (i - |out|), data[i - |out|]);
      }
    }
  }

  /** One multi-sector device request for `count` whole blocks. */
  function DeviceRead(disk: Store, b: nat, count: nat): (data: seq<byte>)
    requires b + count <= |disk|
    ensures |data| == count * BLOCK_SIZE
  {
    seq(count * BLOCK_SIZE, i requires 0 <= i < count * BLOCK_SIZE => ByteAt(disk[b + i / BLOCK_SIZE], i % BLOCK_SIZE))
  }

  /** The blocks it brings, by logical block. */
  function DeviceBlocks(disk: Store, b: nat, count: nat, lb: nat): map<nat, Block>
    requires b + count <= |disk|
  {
    map m: nat | lb <= m < lb + count && InStretch(lb, count, m) :: disk[b + (m - lb)]
  }

  /** The next `run` blocks of a request, of which `data` are the bytes. */
  ghost predicate Follows(st: Store, ptr: Roots, d0: Store, d1: Store, off: nat, fast: bool, got: nat, past: bool, lb: nat, run: nat,
                          more: map<nat, Block>, data: seq<byte>) {
    && more.Keys == Stretch(lb, run) && off / BLOCK_SIZE <= lb && lb + run <= MAX_LOGICAL && run > 0
    && (got == 0 || lb * BLOCK_SIZE == off + got) && lb == (off + got) / BLOCK_SIZE
    && |data| > 0 && (lb + run - 1) * BLOCK_SIZE < off + got + |data|
    && (past ==> lb * BLOCK_SIZE == off + got && |data| == run * BLOCK_SIZE)
    && (forall m :: m in more ==> From(d0, d1, st, past, Place(st, ptr, off, fast, m), more[m]))
    && (forall j :: 0 <= j < |data| ==> ShownAt(more, off + got + j, data[j]))
  }

  function Past(bulk: set<nat>, past: bool, lb: nat, run: nat): set<nat> { if past then bulk + Stretch(lb, run) else bulk }

  lemma Extend(st: Store, ptr: Roots, d0: Store, d1: Store, off: nat, fast: bool, bulk: set<nat>, used: map<nat, Block>, out: seq<byte>,
               past: bool, lb: nat, run: nat, more: map<nat, Block>, data: seq<byte>)
    requires Sourced(st, ptr, d0, d1, off, fast, bulk, used, |out|) && Shows(used, off, out)
    requires Follows(st, ptr, d0, d1, off, fast, |out|, past, lb, run, more, data)
    ensures Sourced(st, ptr, d0, d1, off, fast, Past(bulk, past, lb, run), used + more, |out + data|) && Shows(used + more, off, out + data)
  {
    hide From, Place, ByteAt;
    var bulk', used' := Past(bulk, past, lb, run), used + more;
    forall m | m in used ensures m < lb {
      assert SourceOf(st, ptr, d0, d1, off, fast, bulk, used, |out|, m);
    }
    forall m | m in used' ensures SourceOf(st, ptr, d0, d1, off, fast, bulk', used', |out + data|, m) {
      if m in more {
        assert InStretch(lb, run, m);
        assert m in bulk ==> m in used;
      } else {
        assert SourceOf(st, ptr, d0, d1, off, fast, bulk, used, |out|, m);
      }
    }
    forall m | m in bulk' ensures m in used' && Whole(off, |out + data|, m) {
      if m in bulk { assert Whole(off, |out|, m); }
    }
    forall j | 0 <= j < |data| ensures ShownAt(used', off + |out| + j, data[j]) {
      assert ShownAt(more, off + |out| + j, data[j]);
    }
    ShowsMore(used, used', off, out, data);
  }

  /** A device request for the blocks from disk block `d` on. */
  lemma DeviceFollows(st: Store, ptr: Roots, d0: Store, d1: Store, off: nat, fast: bool, got: nat, lb: nat, run: nat, d: nat)
    requires Settles(d0, d1, st) && 0 < d && d + run <= |st| && off + got == lb * BLOCK_SIZE
    requires off / BLOCK_SIZE <= lb && lb + run <= MAX_LOGICAL && run > 0
    requires forall m :: lb <= m < lb + run ==> Place(st, ptr, off, fast, m) == d + (m - lb)
    ensures Follows(st, ptr, d0, d1, off, fast, got, true, lb, run, DeviceBlocks(d1, d, run, lb), DeviceRead(d1, d, run))
  {
    hide Place, ByteAt;
    var more, data := DeviceBlocks(d1, d, run, lb), DeviceRead(d1, d, run);
    forall m | m in more ensures From(d0, d1, st, true, Place(st, ptr, off, fast, m), more[m]) {
      assert Place(st, ptr, off, fast, m) == d + (m - lb);
    }
    forall j | 0 <= j < |data| ensures ShownAt(more, off + got + j, data[j]) {
      var m := (off + got + j) / BLOCK_SIZE;
      assert m == lb + j / BLOCK_SIZE && (off + got + j) % BLOCK_SIZE == j % BLOCK_SIZE;
      assert InStretch(lb, run, m);
    }
  }

  /** Part of one block, read through the cache. */
  lemma CachedFollows(st: Store, ptr: Roots, d0: Store, d1: Store, off: nat, fast: bool, got: nat, d: nat, data: seq<byte>)
    requires 0 < d < |st| && off + got < MAX_POS && Place(st, ptr, off, fast, (off + got) / BLOCK_SIZE) == d
    requires |data| > 0 && (off + got) % BLOCK_SIZE + |data| <= BLOCK_SIZE && (got == 0 || (off + got) % BLOCK_SIZE == 0)
    requires forall j :: 0 <= j < |data| ==> data[j] == ByteAt(st[d], (off + got) % BLOCK_SIZE + j)
    ensures var lb := (off + got) / BLOCK_SIZE;
            Follows(st, ptr, d0, d1, off, fast, got, false, lb, 1, map[lb := st[d]], data)
  {
    hide Place, ByteAt;
    var lb := (off + got) / BLOCK_SIZE;
    var more := map[lb := st[d]];
    assert more.Keys == Stretch(lb, 1) by { assert InStretch(lb, 1, lb); }
    forall j | 0 <= j < |data| ensures ShownAt(more, off + got + j, data[j]) {
      assert (off + got + j) / BLOCK_SIZE == lb && (off + got + j) % BLOCK_SIZE == (off + got) % BLOCK_SIZE + j;
    }
  }

  // ----- When the output is the file -----

  /** What a read hands over: the bytes of the blocks it takes, all of them or up to the first hole. */
  ghost predicate Delivered(st: Store, ptr: Roots, d0: Store, d1: Store, off: nat, len: nat, fast: bool, used: map<nat, Block>, out: seq<byte>)
    requires off + len <= MAX_POS
  {
    && |out| <= len && Shows(used, off, out)
    && Sourced(st, ptr, d0, d1, off, fast, if fast then Wholes(off, len) else BulkFrom(st, ptr, off, len, 0), used, |out|)
    && (|out| < len ==> !fast && Lookup(st, ptr, (off + |out|) / BLOCK_SIZE) == 0)
  }

  lemma WordBytes(w: u32)
    ensures w == Join(WordByte(w, 0), WordByte(w, 1), WordByte(w, 2), WordByte(w, 3))
  {
    var a := w / 0x100;
    var b := a / 0x100;
    assert b == w / 0x1_0000;
    assert b / 0x100 == w / 0x100_0000;
  }

  /** A block is determined by its bytes. */
  lemma BlockBytes(a: Block, b: Block)
    requires forall k :: 0 <= k < BLOCK_SIZE ==> ByteAt(a, k) == ByteAt(b, k)
    ensures a == b
  {
    hide WordByte, Join;
    forall w | 0 <= w < PTRS ensures a[w] == b[w] {
      assert ByteAt(a, 4 * w) == ByteAt(b, 4 * w) && ByteAt(a, 4 * w + 1) == ByteAt(b, 4 * w + 1);
      assert ByteAt(a, 4 * w + 2) == ByteAt(b, 4 * w + 2) && ByteAt(a, 4 * w + 3) == ByteAt(b, 4 * w + 3);
      WordBytes(a[w]);
      WordBytes(b[w]);
    }
  }

  /** The sequential path, when the spot checks let it run, finds its blocks where it counts them. */
  ghost predicate FastSafe(st: Store, ptr: Roots, off: nat, len: nat)
    requires off + len <= MAX_POS
  {
    Fast(st, ptr, off, len) ==> Consecutive(st, ptr, off / BLOCK_SIZE, (off + len - 1) / BLOCK_SIZE - off / BLOCK_SIZE + 1)
  }

  /** An ascending map is safe; files laid out in one go by the image builder are of this kind. */
  lemma AscendingSafe(st: Store, ptr: Roots, off: nat, len: nat)
    requires len > 0 && off + len <= MAX_POS
    requires Ascending(st, ptr, off / BLOCK_SIZE, (off + len - 1) / BLOCK_SIZE - off / BLOCK_SIZE + 1)
    ensures FastSafe(st, ptr, off, len)
  {
    hide Lookup;
    var a := off / BLOCK_SIZE;
    var n := (off + len - 1) / BLOCK_SIZE - a + 1;
    if SpotOk(st, ptr, a, n) { SpotCheckSound(st, ptr, a, n); }
  }

  /** Every block was taken from where the file has it. */
  lemma InPlace(st: Store, ptr: Roots, d0: Store, d1: Store, off: nat, len: nat, fast: bool, used: map<nat, Block>, out: seq<byte>, m: nat)
    requires off + len <= MAX_POS && Delivered(st, ptr, d0, d1, off, len, fast, used, out) && m in used
    requires fast ==> Consecutive(st, ptr, off / BLOCK_SIZE, (off + len - 1) / BLOCK_SIZE - off / BLOCK_SIZE + 1)
    ensures off / BLOCK_SIZE <= m < MAX_LOGICAL && 0 < Lookup(st, ptr, m) < |st|
    ensures var bulk := if fast then Wholes(off, len) else BulkFrom(st, ptr, off, len, 0);
            From(d0, d1, st, m in bulk, Lookup(st, ptr, m), used[m])
  {
    hide Lookup, Wholes, BulkFrom, Whole, Shows;
    var bulk := if fast then Wholes(off, len) else BulkFrom(st, ptr, off, len, 0);
    assert SourceOf(st, ptr, d0, d1, off, fast, bulk, used, |out|, m);
    if fast {
      DivMono(m * BLOCK_SIZE, off + len - 1);
      assert m * BLOCK_SIZE / BLOCK_SIZE == m;
    }
  }

  lemma DivMono(x: nat, y: nat)
    requires x <= y
    ensures x / BLOCK_SIZE <= y / BLOCK_SIZE
  {
  }

  /** The bytes handed over are the file's exactly when the blocks taken past the cache are. */
  lemma DeliveredIff(st: Store, ptr: Roots, d0: Store, d1: Store, off: nat, len: nat, fast: bool, used: map<nat, Block>, out: seq<byte>)
    requires off + len <= MAX_POS && Delivered(st, ptr, d0, d1, off, len, fast, used, out)
    requires fast ==> Consecutive(st, ptr, off / BLOCK_SIZE, (off + len - 1) / BLOCK_SIZE - off / BLOCK_SIZE + 1)
    ensures var bulk := if fast then Wholes(off, len) else BulkFrom(st, ptr, off, len, 0);
            && (forall m :: m in bulk ==> m in used && m < MAX_LOGICAL && Lookup(st, ptr, m) < |st|)
            && (ReadsFile(st, ptr, off, len, out) <==> forall m :: m in bulk ==> used[m] == st[Lookup(st, ptr, m)])
  {
    hide Lookup, Wholes, BulkFrom, Consecutive, ByteAt;
    var bulk := if fast then Wholes(off, len) else BulkFrom(st, ptr, off, len, 0);
    forall m | m in used
      ensures m < MAX_LOGICAL && 0 < Lookup(st, ptr, m) < |st| && (m !in bulk ==> used[m] == st[Lookup(st, ptr, m)])
    {
      InPlace(st, ptr, d0, d1, off, len, fast, used, out, m);
    }
    if ReadsFile(st, ptr, off, len, out) {
      forall m | m in bulk ensures used[m] == st[Lookup(st, ptr, m)] {
        assert Whole(off, |out|, m);
        SameBlock(st, ptr, off, len, used, out, m);
      }
    }
    if forall m :: m in bulk ==> used[m] == st[Lookup(st, ptr, m)] {
      forall i | 0 <= i < |out| ensures FileByte(st, ptr, off + i) == Byte(out[i]) {
        assert ShownAt(used, off + i, out[i]);
      }
    }
  }

  lemma SameBlock(st: Store, ptr: Roots, off: nat, len: nat, used: map<nat, Block>, out: seq<byte>, m: nat)
    requires Shows(used, off, out) && ReadsFile(st, ptr, off, len, out) && m in used && m < MAX_LOGICAL && 0 < Lookup(st, ptr, m) < |st|
    requires Whole(off, |out|, m)
    ensures used[m] == st[Lookup(st, ptr, m)]
  {
    hide Lookup, ByteAt;
    var b := st[Lookup(st, ptr, m)];
    forall k | 0 <= k < BLOCK_SIZE ensures ByteAt(used[m], k) == ByteAt(b, k) {
      var i := m * BLOCK_SIZE + k - off;
      assert (off + i) / BLOCK_SIZE == m && (off + i) % BLOCK_SIZE == k;
      assert ShownAt(used, off + i, out[i]) && FileByte(st, ptr, off + i) == Byte(out[i]);
    }
    BlockBytes(used[m], b);
  }

  /** Device and cache agree on these blocks of the file. */
  ghost predicate Agrees(st: Store, disk: Store, ptr: Roots, blocks: set<nat>) {
    |disk| == |st| && forall m :: m in blocks && m < MAX_LOGICAL && Lookup(st, ptr, m) < |st| ==> disk[Lookup(st, ptr, m)] == st[Lookup(st, ptr, m)]
  }

  /**
   A read returns the file if device and cache agree, when it begins, on the blocks it fetches past the
   cache; and only then, unless some of them are written back in the meantime.
   */
  lemma ReadsFileIff(st: Store, ptr: Roots, d0: Store, d1: Store, off: nat, len: nat, used: map<nat, Block>, out: seq<byte>)
    requires off + len <= MAX_POS && Delivered(st, ptr, d0, d1, off, len, Fast(st, ptr, off, len), used, out)
    requires FastSafe(st, ptr, off, len) && |d0| == |d1| == |st|
    ensures Agrees(st, d0, ptr, Bulk(st, ptr, off, len)) ==> ReadsFile(st, ptr, off, len, out)
    ensures d0 == d1 && ReadsFile(st, ptr, off, len, out) ==> Agrees(st, d0, ptr, Bulk(st, ptr, off, len))
  {
    var fast := Fast(st, ptr, off, len);
    hide Lookup, Wholes, BulkFrom, Consecutive, ReadsFile, Fast;
    DeliveredIff(st, ptr, d0, d1, off, len, fast, used, out);
    forall m | m in Bulk(st, ptr, off, len)
      ensures m in used && From(d0, d1, st, true, Lookup(st, ptr, m), used[m])
    {
      InPlace(st, ptr, d0, d1, off, len, fast, used, out, m);
    }
  }

  // ----- Reading back what was written -----

  /** What is read back from a file is what was written. */
  lemma ReadAfterWrite(st0: Store, ptr0: Roots, st: Store, ptr: Roots, off: nat, buf: seq<byte>, w: nat, out: seq<byte>)
    requires Wrote(st0, ptr0, st, ptr, off, buf, w) && off + w <= MAX_POS
    ensures ReadsFile(st, ptr, off, w, out) <==> out == buf[..w]
  {
    hide FileByte;
    forall i | 0 <= i < w ensures FileByte(st, ptr, off + i) == Byte(buf[..w][i]) {}
    assert ReadsFile(st, ptr, off, w, buf[..w]);
    if ReadsFile(st, ptr, off, w, out) { ReadsFileUnique(st, ptr, off, w, out, buf[..w]); }
  }

  /** Two adjacent blocks are fetched past the cache. */
  lemma PairInBulk(st: Store, ptr: Roots)
    requires Consecutive(st, ptr, 0, 2)
    ensures !Fast(st, ptr, 0, 8192) && Bulk(st, ptr, 0, 8192) == {0, 1}
  {
    hide Lookup;
    assert Lookup(st, ptr, 1) == Lookup(st, ptr, 0) + 1;
    assert RunFrom(st, ptr, 0, 2, 1) == 2;
    assert RoundOf(st, ptr, 0, 8192, 0) == 2 && RoundBytes(0, 8192, 0, 2) == 8192;
    assert BulkFrom(st, ptr, 0, 8192, 8192) == {};
    assert Stretch(0, 2) == {0, 1} by { assert InStretch(0, 2, 0) && InStretch(0, 2, 1); }
  }

  /**
   Two adjacent blocks just written are read back from the device: the result is the buffer exactly
   when the device already holds both, as long as none is written back during the read.
   */
  lemma ReadBackIff(st0: Store, ptr0: Roots, st: Store, ptr: Roots, disk: Store, buf: seq<byte>, used: map<nat, Block>, out: seq<byte>)
    requires Consecutive(st, ptr, 0, 2) && Wrote(st0, ptr0, st, ptr, 0, buf, 8192) && |buf| == 8192 && |disk| == |st|
    requires Delivered(st, ptr, disk, disk, 0, 8192, false, used, out)
    ensures out == buf <==> Agrees(st, disk, ptr, {0, 1})
  {
    hide Lookup, Consecutive, Delivered, ReadsFile, Wrote;
    PairInBulk(st, ptr);
    ReadsFileIff(st, ptr, disk, disk, 0, 8192, used, out);
    ReadAfterWrite(st0, ptr0, st, ptr, 0, buf, 8192, out);
    assert buf[..8192] == buf;
  }

  lemma OneBytes(b: Block, k: nat)
    requires (forall w :: 0 <= w < PTRS ==> b[w] == 0x101_0101) && k < BLOCK_SIZE
    ensures ByteAt(b, k) == 1
  {
  }

  /** A new file of 8192 bytes 1 in two adjacent blocks, on a device that still holds zeros: the read does not return them. */
  lemma StaleRead(used: map<nat, Block>, out: seq<byte>)
    ensures var one: Block := seq(PTRS, _ => 0x101_0101);
            var st0: Store := seq(100, _ => ZERO_BLOCK);
            var st, ptr, buf := st0[50 := one][51 := one], [50, 51, 0, 0, 0, 0, 0, 0, 0, 0, 0, 0, 0], seq(8192, _ => 1);
            && FileOk(st, ptr) && Wrote(st0, NoRoots(), st, ptr, 0, buf, 8192)
            && (Delivered(st, ptr, st0, st0, 0, 8192, Fast(st, ptr, 0, 8192), used, out) ==> out != buf)
  {
    var one: Block := seq(PTRS, _ => 0x101_0101);
    var st0: Store := seq(100, _ => ZERO_BLOCK);
    var st: Store, ptr: Roots, buf: seq<byte> := st0[50 := one][51 := one], [50, 51, 0, 0, 0, 0, 0, 0, 0, 0, 0, 0, 0], seq(8192, _ => 1);
    DirectFile(st, ptr);
    StaleWrote(st0, st, ptr, one, buf);
    hide Wrote, FileOk, Delivered, Lookup;
    assert Consecutive(st, ptr, 0, 2);
    PairInBulk(st, ptr);
    if Delivered(st, ptr, st0, st0, 0, 8192, false, used, out) {
      ReadBackIff(st0, NoRoots(), st, ptr, st0, buf, used, out);
      assert 0 in {0, 1} && st0[50][0] != st[50][0];
    }
  }

  lemma StaleWrote(st0: Store, st: Store, ptr: Roots, one: Block, buf: seq<byte>)
    requires |st0| == 100 && st == st0[50 := one][51 := one] && (forall w :: 0 <= w < PTRS ==> one[w] == 0x101_0101)
    requires ptr == [50, 51, 0, 0, 0, 0, 0, 0, 0, 0, 0, 0, 0] && |buf| == 8192 && forall i :: 0 <= i < 8192 ==> buf[i] == 1
    ensures Wrote(st0, NoRoots(), st, ptr, 0, buf, 8192)
  {
    forall pos | 0 <= pos < MAX_POS
      ensures FileByte(st, ptr, pos) == AfterWrite(FileByte(st0, NoRoots(), pos), 0, buf, 8192, pos)
    {
      var n := pos / BLOCK_SIZE;
      assert Lookup(st0, NoRoots(), n) == 0;
      if n < DIRECT { DirectSlot(st, ptr, n); }
      assert Lookup(st, ptr, n) == if n == 0 then 50 else if n == 1 then 51 else 0;
      OneBytes(one, pos % BLOCK_SIZE);
      hide ByteAt, Lookup;
    }
  }

  // ----- The two paths -----

  lemma {:induction false} RunIs(st: Store, ptr: Roots, lb: nat, cap: nat, run: nat)
    requires 1 <= run <= cap && lb + cap <= MAX_LOGICAL && Consecutive(st, ptr, lb, run)
    ensures Consecutive(st, ptr, lb, RunFrom(st, ptr, lb, cap, run))
    decreases cap - run
  {
    hide Lookup;
    if run < cap && Lookup(st, ptr, lb + run) == Lookup(st, ptr, lb) + run { RunIs(st, ptr, lb, cap, run + 1); }
  }

  /** The blocks of a round are consecutive and on the disk. */
  lemma RoundOnDisk(st: Store, ptr: Roots, off: nat, len: nat, p: nat)
    requires FileOk(st, ptr) && p < len && off + len <= MAX_POS && Lookup(st, ptr, (off + p) / BLOCK_SIZE) != 0
    ensures var lb, run := (off + p) / BLOCK_SIZE, RoundOf(st, ptr, off, len, p);
            && Consecutive(st, ptr, lb, run) && Lookup(st, ptr, lb) + run <= |st|
            && forall m :: lb <= m < lb + run ==> Lookup(st, ptr, m) == Lookup(st, ptr, lb) + (m - lb)
  {
    hide FileOk, Lookup;
    var lb, run := (off + p) / BLOCK_SIZE, RoundOf(st, ptr, off, len, p);
    assert Consecutive(st, ptr, lb, 1);
    var max := (len - p) / BLOCK_SIZE;
    if run > 1 { RunIs(st, ptr, lb, if max > 8 then 8 else max, 1); }
    LookupData(st, ptr, lb + run - 1);
  }

  lemma WholesNone(off: nat, got: nat)
    requires got == 0 || (off % BLOCK_SIZE != 0 && off % BLOCK_SIZE + got <= BLOCK_SIZE)
    ensures Wholes(off, got) == {}
  {
    forall m: nat ensures !Whole(off, got, m) {}
  }

  lemma WholesNext(off: nat, got: nat, lb: nat, run: nat)
    requires off + got == lb * BLOCK_SIZE
    ensures Wholes(off, got + run * BLOCK_SIZE) == Wholes(off, got) + Stretch(lb, run)
  {
    forall m: nat ensures m in Wholes(off, got + run * BLOCK_SIZE) <==> m in Wholes(off, got) || m in Stretch(lb, run) {
      assert InStretch(lb, run, m) <==> lb <= m < lb + run;
      assert Whole(off, got, m) <==> off <= m * BLOCK_SIZE && m + 1 <= lb;
      assert Whole(off, got + run * BLOCK_SIZE, m) <==> off <= m * BLOCK_SIZE && m + 1 <= lb + run;
    }
  }

  lemma WholesTail(off: nat, got: nat, len: nat)
    requires (off + got) % BLOCK_SIZE == 0 && got <= len < got + BLOCK_SIZE
    ensures Wholes(off, len) == Wholes(off, got)
  {
    forall m: nat ensures m in Wholes(off, len) <==> m in Wholes(off, got) {
      assert Whole(off, got, m) <==> Whole(off, len, m);
    }
  }

  /** The output so far ends at a block boundary, and `fb` is where the sequential path goes on. */
  ghost predicate AtBlock(first: nat, off: nat, got: nat, fb: nat) {
    (off + got) % BLOCK_SIZE == 0 && fb == first + ((off + got) / BLOCK_SIZE - off / BLOCK_SIZE)
  }

  lemma BatchInRange(first: nat, off: nat, len: nat, got: nat, fb: nat, batch: nat)
    requires AtBlock(first, off, got, fb) && batch > 0 && got + batch * BLOCK_SIZE <= len
    ensures first <= fb && fb + batch <= first + ((off + len - 1) / BLOCK_SIZE - off / BLOCK_SIZE + 1)
    ensures (off + got) / BLOCK_SIZE + batch <= (off + len - 1) / BLOCK_SIZE + 1
  {
    var q := (off + got) / BLOCK_SIZE;
    assert off + got == q * BLOCK_SIZE;
    assert off + len - 1 >= (q + batch) * BLOCK_SIZE - 1;
  }

  /** A range that passes the spot checks ends on the disk, so the sequential path cannot run past it. */
  lemma SpotOnDisk(st: Store, ptr: Roots, a: nat, n: nat)
    requires FileOk(st, ptr) && a + n <= MAX_LOGICAL && n > 0 && SpotOk(st, ptr, a, n)
    ensures Lookup(st, ptr, a) + n <= |st|
  {
    hide FileOk, Lookup;
    LookupData(st, ptr, a + n - 1);
  }

  /** What is left after the whole blocks lies in the last block of the range. */
  lemma TailInRange(first: nat, off: nat, len: nat, got: nat, fb: nat)
    requires AtBlock(first, off, got, fb) && got < len
    ensures fb < first + ((off + len - 1) / BLOCK_SIZE - off / BLOCK_SIZE + 1)
  {
    DivMono(off + got, off + len - 1);
  }

  /** The loop of whole blocks goes on at the next block boundary. */
  lemma BatchNext(first: nat, off: nat, got: nat, fb: nat, batch: nat)
    requires AtBlock(first, off, got, fb)
    ensures AtBlock(first, off, got + batch * BLOCK_SIZE, fb + batch)
  {
    var q := (off + got) / BLOCK_SIZE;
    assert off + got == q * BLOCK_SIZE;
    assert off + (got + batch * BLOCK_SIZE) == (q + batch) * BLOCK_SIZE;
  }

  /** A batch of at most 64 blocks fits what remains. */
  lemma BatchFits(left: nat)
    requires left >= BLOCK_SIZE
    ensures var remain := left / BLOCK_SIZE;
      var batch := if remain > 64 then 64 else remain;
      0 < batch && batch * BLOCK_SIZE <= left
  {
  }

  // ----- Bookkeeping of the loops -----

  lemma SourcedNone(st: Store, ptr: Roots, d0: Store, d1: Store, off: nat, fast: bool)
    ensures Sourced(st, ptr, d0, d1, off, fast, {}, map[], 0) && Shows(map[], off, [])
  {
  }

  lemma SettlesSizes(d0: Store, d1: Store, st: Store)
    requires Settles(d0, d1, st)
    ensures |d0| == |d1| == |st|
  {
  }

  lemma SpotFirst(st: Store, ptr: Roots, a: nat, n: nat)
    requires a + n <= MAX_LOGICAL && n > 0 && SpotOk(st, ptr, a, n)
    ensures Lookup(st, ptr, a) > 0
  {
  }

  lemma AtStart(first: nat, off: nat)
    ensures off % BLOCK_SIZE == 0 ==> AtBlock(first, off, 0, first)
  {
  }

  /** After the first partial block the output ends at a block boundary, or the request is done. */
  lemma AfterPart(first: nat, off: nat, len: nat, chunk: nat)
    requires off % BLOCK_SIZE != 0
    requires chunk == if BLOCK_SIZE - off % BLOCK_SIZE > len then len else BLOCK_SIZE - off % BLOCK_SIZE
    ensures chunk == len || AtBlock(first, off, chunk, first + 1)
  {
    var q := off / BLOCK_SIZE;
    if chunk != len { assert off + chunk == (q + 1) * BLOCK_SIZE; }
  }

  lemma BatchPlace(st: Store, ptr: Roots, off: nat, len: nat, got: nat, fb: nat, batch: nat)
    requires off + len <= MAX_POS && batch > 0 && got + batch * BLOCK_SIZE <= len
    requires AtBlock(Lookup(st, ptr, off / BLOCK_SIZE), off, got, fb)
    ensures var lb := (off + got) / BLOCK_SIZE;
            && off + got == lb * BLOCK_SIZE && off / BLOCK_SIZE <= lb && lb + batch <= MAX_LOGICAL
            && forall m :: lb <= m < lb + batch ==> Place(st, ptr, off, true, m) == fb + (m - lb)
  {
    hide Lookup;
    var q := (off + got) / BLOCK_SIZE;
    assert off + got == q * BLOCK_SIZE;
    assert (q + batch) * BLOCK_SIZE <= MAX_POS;
  }

  lemma TailPlace(st: Store, ptr: Roots, off: nat, len: nat, got: nat, fb: nat)
    requires off + len <= MAX_POS && got < len && AtBlock(Lookup(st, ptr, off / BLOCK_SIZE), off, got, fb)
    ensures off / BLOCK_SIZE <= (off + got) / BLOCK_SIZE < MAX_LOGICAL && (off + got) % BLOCK_SIZE == 0
    ensures Place(st, ptr, off, true, (off + got) / BLOCK_SIZE) == fb
  {
    hide Lookup;
  }

  /** A read that begins later has begun earlier. */
  lemma DeliveredEarlier(st: Store, ptr: Roots, a: Store, d0: Store, d1: Store, off: nat, len: nat, fast: bool, used: map<nat, Block>, out: seq<byte>)
    requires off + len <= MAX_POS && Delivered(st, ptr, d0, d1, off, len, fast, used, out) && Settles(a, d0, st)
    ensures Delivered(st, ptr, a, d1, off, len, fast, used, out)
  {
    hide Lookup, Wholes, BulkFrom, Place, Shows, Whole;
    var bulk := if fast then Wholes(off, len) else BulkFrom(st, ptr, off, len, 0);
    forall m | m in used ensures SourceOf(st, ptr, a, d1, off, fast, bulk, used, |out|, m) {
      assert SourceOf(st, ptr, d0, d1, off, fast, bulk, used, |out|, m);
    }
  }

  lemma DeliveredLength(st: Store, ptr: Roots, d0: Store, d1: Store, off: nat, len: nat, fast: bool, used: map<nat, Block>, out: seq<byte>)
    requires off + len <= MAX_POS && Delivered(st, ptr, d0, d1, off, len, fast, used, out)
    ensures |out| <= len
  {
  }

  /** The blocks that one round fetches past the cache, and those of the rounds after it. */
  lemma BulkStep(st: Store, ptr: Roots, off: nat, len: nat, p: nat, run: nat)
    requires p < len && off + len <= MAX_POS && Lookup(st, ptr, (off + p) / BLOCK_SIZE) != 0 && run == RoundOf(st, ptr, off, len, p)
    ensures var p' := p + RoundBytes(off, len, p, run);
            && p < p' <= len && (p' == len || (off + p') % BLOCK_SIZE == 0)
            && BulkFrom(st, ptr, off, len, p) == Past({}, run > 1, (off + p) / BLOCK_SIZE, run) + BulkFrom(st, ptr, off, len, p')
  {
    hide Lookup, RoundOf;
    var c := RoundBytes(off, len, p, run);
    if run > 1 {
      assert off + p == (off + p) / BLOCK_SIZE * BLOCK_SIZE;
      assert off + (p + c) == ((off + p) / BLOCK_SIZE + run) * BLOCK_SIZE;
    }
  }

  lemma BulkDone(st: Store, ptr: Roots, off: nat, len: nat, p: nat)
    requires p <= len && off + len <= MAX_POS && (p < len ==> Lookup(st, ptr, (off + p) / BLOCK_SIZE) == 0)
    ensures BulkFrom(st, ptr, off, len, p) == {}
  {
    hide Lookup;
  }
}
