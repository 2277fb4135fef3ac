/**
 Directory contents: 64 entries of 64 bytes to a block. The inode number comes first, the length of
 the name is byte 4, the type byte 5, and the NUL-terminated name begins at byte 6.
 */
module Directory {
  import opened BlockTree
  import opened FileTree
  import opened Accounts
  import opened FileData

  const PER_DIR_BLOCK: nat := 64
  const NAME_MAX: nat := 58

  datatype Entry = Entry(ino: u32, len: nat, kind: nat, name: seq<byte>)

  const NO_ENTRY := Entry(0, 0, 0, [])

  function Named(child: u32, kind: nat, name: seq<byte>): Entry { Entry(child, |name|, kind, name) }

  /** What a removal leaves: length and type stay behind. */
  function Vacated(n: Entry): Entry { n.(ino := 0, name := []) }

  /** The bytes from `k` on up to a NUL, at most `n` of them. */
  function CStr(b: Block, k: nat, n: nat): seq<byte>
    requires k + n <= BLOCK_SIZE
    decreases n
  {
    if n == 0 || ByteAt(b, k) == 0 then [] else [ByteAt(b, k)] + CStr(b, k + 1, n - 1)
  }

  /** Comparing a stored name with `name`, one byte at a time. */
  lemma CStrCompare(b: Block, k: nat, n: nat, name: seq<byte>)
    requires k + n <= BLOCK_SIZE && 0 !in name
    ensures n == 0 || ByteAt(b, k) == 0 ==> (CStr(b, k, n) == name <==> name == [])
    ensures n > 0 && ByteAt(b, k) != 0 && name != [] ==>
              (CStr(b, k, n) == name <==> ByteAt(b, k) == name[0] && CStr(b, k + 1, n - 1) == name[1..])
    ensures n > 0 && ByteAt(b, k) != 0 && name == [] ==> CStr(b, k, n) != name
  {
    hide ByteAt;
    if n > 0 && ByteAt(b, k) != 0 {
      assert CStr(b, k, n)[1..] == CStr(b, k + 1, n - 1);
      assert name != [] ==> name == [name[0]] + name[1..];
    }
  }

  function DirEntry(b: Block, i: nat): Entry
    requires i < PER_DIR_BLOCK
  {
    Entry(b[16 * i], ByteAt(b, 64 * i + 4), ByteAt(b, 64 * i + 5), CStr(b, 64 * i + 6, NAME_MAX))
  }

  /** Entry `e` of a directory; an entry in a hole is empty. */
  function EntryAt(st: Store, ptr: Roots, e: nat): Entry
    requires e / PER_DIR_BLOCK < MAX_LOGICAL
  {
    var d := Lookup(st, ptr, e / PER_DIR_BLOCK);
    if 0 < d < |st| then DirEntry(st[d], e % PER_DIR_BLOCK) else NO_ENTRY
  }

  predicate Live(n: Entry, name: seq<byte>) { n.ino != 0 && n.name == name }

  /** The first live entry called `name` from `e` on, before the end and before the first hole; else `total`. */
  function Find(st: Store, ptr: Roots, total: nat, name: seq<byte>, e: nat): (r: nat)
    requires total <= PER_DIR_BLOCK * MAX_LOGICAL && e <= total
    ensures e <= r <= total && (r < total ==> Live(EntryAt(st, ptr, r), name))
    ensures forall x :: e <= x < r && r < total ==> !Live(EntryAt(st, ptr, x), name)
    decreases total - e
  {
    if e == total || !(0 < Lookup(st, ptr, e / PER_DIR_BLOCK) < |st|) then total
    else if Live(EntryAt(st, ptr, e), name) then e
    else Find(st, ptr, total, name, e + 1)
  }

  /** The first live entry from `e` on after skipping `skip` live ones. */
  function FindNth(st: Store, ptr: Roots, total: nat, skip: nat, e: nat): (r: nat)
    requires total <= PER_DIR_BLOCK * MAX_LOGICAL && e <= total
    ensures e <= r <= total && (r < total ==> EntryAt(st, ptr, r).ino != 0)
    decreases total - e
  {
    if e == total || !(0 < Lookup(st, ptr, e / PER_DIR_BLOCK) < |st|) then total
    else if EntryAt(st, ptr, e).ino == 0 then FindNth(st, ptr, total, skip, e + 1)
    else if skip == 0 then e
    else FindNth(st, ptr, total, skip - 1, e + 1)
  }

  /** The first unused entry from `e` on, before the end and before the first hole; else `total`. */
  function FindUnused(st: Store, ptr: Roots, total: nat, e: nat): (r: nat)
    requires total <= PER_DIR_BLOCK * MAX_LOGICAL && e <= total
    ensures e <= r <= total && (r < total ==> EntryAt(st, ptr, r).ino == 0)
    decreases total - e
  {
    if e == total || !(0 < Lookup(st, ptr, e / PER_DIR_BLOCK) < |st|) then total
    else if EntryAt(st, ptr, e).ino == 0 then e
    else FindUnused(st, ptr, total, e + 1)
  }

  // ----- Changing one entry of a block -----

  lemma {:induction false} CStrSame(b: Block, b': Block, k: nat, n: nat)
    requires k + n <= BLOCK_SIZE && forall j :: k <= j < k + n ==> ByteAt(b', j) == ByteAt(b, j)
    ensures CStr(b', k, n) == CStr(b, k, n)
    decreases n
  {
    hide ByteAt;
    if n > 0 && ByteAt(b, k) != 0 { CStrSame(b, b', k + 1, n - 1); }
  }

  lemma {:induction false} CStrRead(b: Block, k: nat, n: nat, name: seq<byte>)
    requires k + n <= BLOCK_SIZE && |name| < n && 0 !in name
    requires forall j :: 0 <= j < |name| ==> ByteAt(b, k + j) == name[j]
    requires ByteAt(b, k + |name|) == 0
    ensures CStr(b, k, n) == name
    decreases n
  {
    hide ByteAt;
    if name != [] {
      assert ByteAt(b, k + 0) == name[0] && name[0] in name;
      forall j | 0 <= j < |name[1..]| ensures ByteAt(b, k + 1 + j) == name[1..][j] {
        assert ByteAt(b, k + (j + 1)) == name[j + 1];
      }
      assert ByteAt(b, k + 1 + |name[1..]|) == 0;
      CStrRead(b, k + 1, n - 1, name[1..]);
      assert name == [name[0]] + name[1..];
    }
  }

  /** Both blocks agree outside entry `i`. */
  ghost predicate WordsSame(b: Block, b': Block, i: nat) {
    forall w :: 0 <= w < PTRS && !(16 * i <= w < 16 * i + 16) ==> b'[w] == b[w]
  }

  lemma OtherEntry(b: Block, b': Block, i: nat, j: nat)
    requires i < PER_DIR_BLOCK && j < PER_DIR_BLOCK && i != j && WordsSame(b, b', i)
    ensures DirEntry(b', j) == DirEntry(b, j)
  {
    CStrSame(b, b', 64 * j + 6, NAME_MAX);
  }

  /** Only entry `e` changed, and it became `n`. */
  ghost predicate OneEntry(st: Store, ptr: Roots, st': Store, ptr': Roots, e: nat, n: Entry) {
    forall x :: 0 <= x < PER_DIR_BLOCK * MAX_LOGICAL ==>
      EntryAt(st', ptr', x) == if x == e then n else EntryAt(st, ptr, x)
  }

  /** Rewriting one entry of a directory block. */
  lemma EntryWrite(st: Store, ptr: Roots, e: nat, b: Block)
    requires FileOk(st, ptr) && e / PER_DIR_BLOCK < MAX_LOGICAL && 0 < Lookup(st, ptr, e / PER_DIR_BLOCK) < |st|
    requires WordsSame(st[Lookup(st, ptr, e / PER_DIR_BLOCK)], b, e % PER_DIR_BLOCK)
    ensures OneEntry(st, ptr, st[Lookup(st, ptr, e / PER_DIR_BLOCK) := b], ptr, e, DirEntry(b, e % PER_DIR_BLOCK))
  {
    hide Tree, In, FileIn, Walk, WordsSame, DirEntry;
    var m, i := e / PER_DIR_BLOCK, e % PER_DIR_BLOCK;
    var d := Lookup(st, ptr, m);
    var st' := st[d := b];
    LookupData(st, ptr, m);
    FileFrame(st, st', ptr);
    hide FileOk;
    forall x | 0 <= x < PER_DIR_BLOCK * MAX_LOGICAL
      ensures EntryAt(st', ptr, x) == if x == e then DirEntry(b, i) else EntryAt(st, ptr, x)
    {
      var mx := x / PER_DIR_BLOCK;
      assert Proper(SlotOf(mx));
      if mx != m {
        LookupInjective(st, ptr, m, mx);
      } else if x != e {
        OtherEntry(st[d], b, i, x % PER_DIR_BLOCK);
      }
    }
  }

  /** A cleared block holds empty entries, so allocating one changes no entry. */
  lemma EntriesPlaced(st: Store, ptr: Roots, st': Store, ptr': Roots, n: nat, d: nat)
    requires Placed(st, ptr, st', ptr', n, d) && |st| == |st'| && 0 < d < |st'| && st'[d] == ZERO_BLOCK
    requires n < MAX_LOGICAL && Lookup(st, ptr, n) == 0
    ensures forall x :: 0 <= x < PER_DIR_BLOCK * MAX_LOGICAL ==> EntryAt(st', ptr', x) == EntryAt(st, ptr, x)
  {
    hide Lookup;
    forall x | 0 <= x < PER_DIR_BLOCK * MAX_LOGICAL ensures EntryAt(st', ptr', x) == EntryAt(st, ptr, x) {
      var m := x / PER_DIR_BLOCK;
      assert SameData(st, st', Lookup(st, ptr, m));
      if m == n { ZeroEntry(x % PER_DIR_BLOCK); }
    }
  }

  lemma ZeroEntry(i: nat)
    requires i < PER_DIR_BLOCK
    ensures DirEntry(ZERO_BLOCK, i) == NO_ENTRY
  {
    ZeroBytes(64 * i + 4);
    ZeroBytes(64 * i + 5);
    ZeroBytes(64 * i + 6);
  }

  // ----- What the scans find -----

  predicate Present(st: Store, ptr: Roots, e: nat)
    requires e / PER_DIR_BLOCK < MAX_LOGICAL
  {
    0 < Lookup(st, ptr, e / PER_DIR_BLOCK) < |st|
  }

  /** The first entry from `e` on that lies in a hole, else `total`: the scans see nothing from there on. */
  function Extent(st: Store, ptr: Roots, total: nat, e: nat): (r: nat)
    requires total <= PER_DIR_BLOCK * MAX_LOGICAL && e <= total
    ensures e <= r <= total && (forall x :: e <= x < r ==> Present(st, ptr, x)) && (r < total ==> !Present(st, ptr, r))
    decreases total - e
  {
    if e == total || !Present(st, ptr, e) then e else Extent(st, ptr, total, e + 1)
  }

  lemma ExtentIs(st: Store, ptr: Roots, total: nat, r: nat)
    requires total <= PER_DIR_BLOCK * MAX_LOGICAL && r <= total
    requires (forall x :: 0 <= x < r ==> Present(st, ptr, x)) && (r < total ==> !Present(st, ptr, r))
    ensures Extent(st, ptr, total, 0) == r
  {
    hide Present;
    var x := Extent(st, ptr, total, 0);
    assert x == r;
  }

  /** No live entry called `name` in `[lo, hi)`. */
  ghost predicate Absent(st: Store, ptr: Roots, name: seq<byte>, lo: nat, hi: nat)
    requires hi <= PER_DIR_BLOCK * MAX_LOGICAL
  {
    forall x :: lo <= x < hi ==> !Live(EntryAt(st, ptr, x), name)
  }

  /** A lookup finds the first live entry of that name before the first hole, and nothing exactly when there is none. */
  lemma {:induction false} FindIs(st: Store, ptr: Roots, total: nat, name: seq<byte>, e: nat)
    requires total <= PER_DIR_BLOCK * MAX_LOGICAL && e <= total
    ensures var r, x := Find(st, ptr, total, name, e), Extent(st, ptr, total, e);
            if r < total then r < x && Absent(st, ptr, name, e, r) else Absent(st, ptr, name, e, x)
    decreases total - e
  {
    hide EntryAt, Lookup;
    if e < total && Present(st, ptr, e) && !Live(EntryAt(st, ptr, e), name) { FindIs(st, ptr, total, name, e + 1); }
  }

  /** That determines it. */
  lemma FindFrom(st: Store, ptr: Roots, total: nat, name: seq<byte>, e: nat, r: nat)
    requires total <= PER_DIR_BLOCK * MAX_LOGICAL && e <= r <= total
    requires r < total ==> r < Extent(st, ptr, total, e) && Live(EntryAt(st, ptr, r), name) && Absent(st, ptr, name, e, r)
    requires r == total ==> Absent(st, ptr, name, e, Extent(st, ptr, total, e))
    ensures Find(st, ptr, total, name, e) == r
  {
    hide EntryAt, Lookup, Find, Extent;
    FindIs(st, ptr, total, name, e);
    var f := Find(st, ptr, total, name, e);
    assert f == r;
  }

  /** An addition takes the first unused entry before the first hole, if there is one. */
  lemma {:induction false} FindUnusedIs(st: Store, ptr: Roots, total: nat, e: nat)
    requires total <= PER_DIR_BLOCK * MAX_LOGICAL && e <= total
    ensures var r, x := FindUnused(st, ptr, total, e), Extent(st, ptr, total, e);
            (r < total ==> r < x) && forall y :: e <= y < (if r < total then r else x) ==> EntryAt(st, ptr, y).ino != 0
    decreases total - e
  {
    hide EntryAt, Lookup;
    if e < total && Present(st, ptr, e) && EntryAt(st, ptr, e).ino != 0 { FindUnusedIs(st, ptr, total, e + 1); }
  }

  /** The number of live entries in `[lo, hi)`. */
  function Lives(st: Store, ptr: Roots, lo: nat, hi: nat): nat
    requires lo <= hi <= PER_DIR_BLOCK * MAX_LOGICAL
    decreases hi - lo
  {
    if lo == hi then 0 else (if EntryAt(st, ptr, lo).ino != 0 then 1 else 0) + Lives(st, ptr, lo + 1, hi)
  }

  /** Entry number `skip` exists exactly when more than `skip` entries before the first hole are live; it is the one with `skip` before it. */
  lemma {:induction false} FindNthIs(st: Store, ptr: Roots, total: nat, skip: nat, e: nat)
    requires total <= PER_DIR_BLOCK * MAX_LOGICAL && e <= total
    ensures var r, x := FindNth(st, ptr, total, skip, e), Extent(st, ptr, total, e);
            && (r < total <==> Lives(st, ptr, e, x) > skip)
            && (r < total ==> r < x && EntryAt(st, ptr, r).ino != 0 && Lives(st, ptr, e, r) == skip)
    decreases total - e
  {
    hide EntryAt, Lookup;
    if e < total && Present(st, ptr, e) {
      if EntryAt(st, ptr, e).ino == 0 {
        FindNthIs(st, ptr, total, skip, e + 1);
      } else if skip > 0 {
        FindNthIs(st, ptr, total, skip - 1, e + 1);
      }
    }
  }

  lemma {:induction false} NoLives(st: Store, ptr: Roots, lo: nat, hi: nat)
    requires lo <= hi <= PER_DIR_BLOCK * MAX_LOGICAL
    ensures Lives(st, ptr, lo, hi) == 0 <==> forall x :: lo <= x < hi ==> EntryAt(st, ptr, x).ino == 0
    decreases hi - lo
  {
    hide EntryAt;
    if lo < hi { NoLives(st, ptr, lo + 1, hi); }
  }

  // ----- Directories without holes -----

  /** No hole before entry `total`. */
  ghost predicate Solid(st: Store, ptr: Roots, total: nat) {
    total <= PER_DIR_BLOCK * MAX_LOGICAL && forall e :: 0 <= e < total ==> Present(st, ptr, e)
  }

  lemma SolidExtent(st: Store, ptr: Roots, total: nat)
    requires total <= PER_DIR_BLOCK * MAX_LOGICAL
    ensures Solid(st, ptr, total) <==> Extent(st, ptr, total, 0) == total
  {
    hide Present, Extent;
  }

  /** The directory iterator finds nothing. */
  predicate LooksEmpty(st: Store, ptr: Roots, total: nat)
    requires total <= PER_DIR_BLOCK * MAX_LOGICAL
  {
    FindNth(st, ptr, total, 0, 0) == total
  }

  ghost predicate NothingLive(st: Store, ptr: Roots, total: nat)
    requires total <= PER_DIR_BLOCK * MAX_LOGICAL
  {
    forall x :: 0 <= x < total ==> EntryAt(st, ptr, x).ino == 0
  }

  /** A mapped entry behind a hole: no scan reaches it. */
  ghost predicate Island(st: Store, ptr: Roots, total: nat, x: nat)
    requires total <= PER_DIR_BLOCK * MAX_LOGICAL
  {
    Extent(st, ptr, total, 0) <= x < total && Present(st, ptr, x)
  }

  /** Without such entries, and in particular without holes, a directory looks empty exactly when it is. */
  lemma LooksEmptyIs(st: Store, ptr: Roots, total: nat)
    requires total <= PER_DIR_BLOCK * MAX_LOGICAL && forall x :: !Island(st, ptr, total, x)
    ensures LooksEmpty(st, ptr, total) <==> NothingLive(st, ptr, total)
  {
    hide Lookup, Extent, FindNth, DirEntry;
    FindNthIs(st, ptr, total, 0, 0);
    NoLives(st, ptr, 0, Extent(st, ptr, total, 0));
    forall x | Extent(st, ptr, total, 0) <= x < total ensures EntryAt(st, ptr, x).ino == 0 {
      assert !Island(st, ptr, total, x);
    }
  }

  lemma SolidNoIsland(st: Store, ptr: Roots, total: nat)
    requires Solid(st, ptr, total)
    ensures forall x :: !Island(st, ptr, total, x)
  {
    hide Present;
    SolidExtent(st, ptr, total);
  }

  /** And only then: with such an entry, the same map with other contents is a directory that looks empty and is not. */
  lemma IslandHides(st: Store, ptr: Roots, total: nat, x: nat) returns (st': Store)
    requires FileOk(st, ptr) && total <= PER_DIR_BLOCK * MAX_LOGICAL && Island(st, ptr, total, x)
    ensures SameFile(st, st', ptr) && |st'| == |st| && LooksEmpty(st', ptr, total) && !NothingLive(st', ptr, total)
  {
    hide Tree, In, Walk, FileIn, FileOk;
    st' := Blanked(st, ptr, Extent(st, ptr, total, 0), x);
    hide DirEntry, FindNth;
    forall y | 0 <= y < total ensures Present(st', ptr, y) <==> Present(st, ptr, y) {
      assert Proper(SlotOf(y / PER_DIR_BLOCK));
    }
    hide Lookup, Present, SameFile;
    ExtentIs(st', ptr, total, Extent(st, ptr, total, 0));
    FindNthIs(st', ptr, total, 0, 0);
    NoLives(st', ptr, 0, Extent(st, ptr, total, 0));
  }

  /** The same map with no live entry before `h` and a live one at `x`. */
  lemma {:induction false} Blanked(st: Store, ptr: Roots, h: nat, x: nat) returns (st': Store)
    requires FileOk(st, ptr) && h <= x < PER_DIR_BLOCK * MAX_LOGICAL && Present(st, ptr, x)
    requires forall y :: 0 <= y < h ==> y / PER_DIR_BLOCK != x / PER_DIR_BLOCK
    ensures SameFile(st, st', ptr) && |st'| == |st| && EntryAt(st', ptr, x).ino != 0
    ensures forall y :: 0 <= y < h ==> EntryAt(st', ptr, y).ino == 0
    decreases h
  {
    hide Tree, In, Walk, FileIn, FileOk;
    if h == 0 {
      var d := Lookup(st, ptr, x / PER_DIR_BLOCK);
      var b: Block := st[d][16 * (x % PER_DIR_BLOCK) := 1];
      st' := st[d := b];
      StoredMap(st, ptr, x / PER_DIR_BLOCK, b);
      assert Proper(SlotOf(x / PER_DIR_BLOCK));
    } else {
      var y := h - 1;
      var st1 := Blanked(st, ptr, y, x);
      assert Proper(SlotOf(x / PER_DIR_BLOCK)) && Proper(SlotOf(y / PER_DIR_BLOCK));
      st' := st1;
      if Present(st1, ptr, y) {
        var d := Lookup(st1, ptr, y / PER_DIR_BLOCK);
        var b: Block := st1[d][16 * (y % PER_DIR_BLOCK) := 0];
        st' := st1[d := b];
        StoredMap(st1, ptr, y / PER_DIR_BLOCK, b);
        EntryWrite(st1, ptr, y, b);
        SameFileTrans(st, st1, st', ptr);
      }
      hide DirEntry, EntryAt;
    }
  }

  lemma SameFileTrans(a: Store, b: Store, c: Store, ptr: Roots)
    requires SameFile(a, b, ptr) && SameFile(b, c, ptr)
    ensures SameFile(a, c, ptr)
  {
    hide FileIn, FileOk, At;
  }

  lemma StoredMap(st: Store, ptr: Roots, n: nat, b: Block)
    requires FileOk(st, ptr) && n < MAX_LOGICAL && 0 < Lookup(st, ptr, n) < |st|
    ensures SameFile(st, st[Lookup(st, ptr, n) := b], ptr)
  {
    hide Tree, In, Walk, FileIn, FileOk;
    LookupData(st, ptr, n);
    FileFrame(st, st[Lookup(st, ptr, n) := b], ptr);
  }

  lemma EntryLoaded(st: Store, ptr: Roots, e: nat, d: nat)
    requires e / PER_DIR_BLOCK < MAX_LOGICAL && d == Lookup(st, ptr, e / PER_DIR_BLOCK) && 0 < d < |st|
    ensures EntryAt(st, ptr, e) == DirEntry(st[d], e % PER_DIR_BLOCK)
  {
  }

  lemma EntryIno(b: Block, i: nat)
    requires i < PER_DIR_BLOCK
    ensures DirEntry(b, i).ino == b[16 * i]
  {
  }

  /** Zeroing the inode number and the first byte of the name empties the entry. */
  lemma ClearedEntry(b: Block, i: nat)
    requires i < PER_DIR_BLOCK
    ensures var b' := SetByte(b[16 * i := 0], 64 * i + 6, 0);
            WordsSame(b, b', i) && DirEntry(b', i) == Vacated(DirEntry(b, i))
  {
    hide ByteAt, SetByte;
    var b1 := b[16 * i := 0];
    SetByteOne(b1, 64 * i + 6, 0, 64 * i + 4);
    SetByteOne(b1, 64 * i + 6, 0, 64 * i + 5);
    SetByteOne(b1, 64 * i + 6, 0, 64 * i + 6);
    ByteBehind(b, i, 64 * i + 4);
    ByteBehind(b, i, 64 * i + 5);
    EntryByte(b1, i, 64 * i + 6, 0);
  }

  /** The state of the name copy: inode number, length and type set, first `j` bytes of the name stored, nothing outside the entry touched. */
  ghost predicate Filling(b: Block, b': Block, i: nat, child: u32, kind: byte, name: seq<byte>, j: nat) {
    && i < PER_DIR_BLOCK && |name| < NAME_MAX && j <= |name|
    && WordsSame(b, b', i) && b'[16 * i] == child
    && ByteAt(b', 64 * i + 4) == |name| && ByteAt(b', 64 * i + 5) == kind
    && (forall k :: 0 <= k < j ==> ByteAt(b', 64 * i + 6 + k) == name[k])
  }

  /** Storing a byte of entry `i` behind its inode number. */
  lemma EntryByte(b: Block, i: nat, k: nat, v: byte)
    requires i < PER_DIR_BLOCK && 64 * i + 4 <= k < 64 * i + 64
    ensures WordsSame(b, SetByte(b, k, v), i) && SetByte(b, k, v)[16 * i] == b[16 * i]
  {
    hide SetWordByte;
    assert 16 * i < k / 4 < 16 * i + 16;
  }

  lemma ByteBehind(b: Block, i: nat, k: nat)
    requires i < PER_DIR_BLOCK && 64 * i + 4 <= k < 64 * i + 64
    ensures ByteAt(b[16 * i := 0], k) == ByteAt(b, k)
  {
    assert 16 * i < k / 4;
  }

  lemma WordsSameTrans(a: Block, b: Block, c: Block, i: nat)
    requires WordsSame(a, b, i) && WordsSame(b, c, i)
    ensures WordsSame(a, c, i)
  {
  }

  lemma FillStart(b: Block, i: nat, child: u32, kind: byte, name: seq<byte>)
    requires i < PER_DIR_BLOCK && |name| < NAME_MAX
    ensures Filling(b, SetByte(SetByte(b[16 * i := child], 64 * i + 4, |name|), 64 * i + 5, kind), i, child, kind, name, 0)
  {
    hide SetByte, ByteAt;
    var b1 := b[16 * i := child];
    var b2 := SetByte(b1, 64 * i + 4, |name|);
    EntryByte(b1, i, 64 * i + 4, |name|);
    EntryByte(b2, i, 64 * i + 5, kind);
    SetByteOne(b1, 64 * i + 4, |name|, 64 * i + 4);
    SetByteOne(b2, 64 * i + 5, kind, 64 * i + 4);
    SetByteOne(b2, 64 * i + 5, kind, 64 * i + 5);
  }

  lemma FillStep(b: Block, b': Block, i: nat, child: u32, kind: byte, name: seq<byte>, j: nat)
    requires Filling(b, b', i, child, kind, name, j) && j < |name|
    ensures Filling(b, SetByte(b', 64 * i + 6 + j, name[j]), i, child, kind, name, j + 1)
  {
    hide SetByte, ByteAt;
    var base := 64 * i + 6;
    var b2 := SetByte(b', base + j, name[j]);
    EntryByte(b', i, base + j, name[j]);
    SetByteOne(b', base + j, name[j], 64 * i + 4);
    SetByteOne(b', base + j, name[j], 64 * i + 5);
    forall k | 0 <= k < j + 1 ensures ByteAt(b2, base + k) == name[k] {
      SetByteOne(b', base + j, name[j], base + k);
    }
  }

  /** Terminating the name completes the entry. */
  lemma FillEnd(b: Block, b': Block, i: nat, child: u32, kind: byte, name: seq<byte>)
    requires Filling(b, b', i, child, kind, name, |name|) && 0 !in name
    ensures var b2 := SetByte(b', 64 * i + 6 + |name|, 0);
            WordsSame(b, b2, i) && DirEntry(b2, i) == Named(child, kind, name)
  {
    hide SetByte, ByteAt, CStr;
    var base := 64 * i + 6;
    var b2 := SetByte(b', base + |name|, 0);
    EntryByte(b', i, base + |name|, 0);
    WordsSameTrans(b, b', b2, i);
    hide WordsSame;
    SetByteOne(b', base + |name|, 0, 64 * i + 4);
    SetByteOne(b', base + |name|, 0, 64 * i + 5);
    forall j | 0 <= j < |name| ensures ByteAt(b2, base + j) == name[j] {
      SetByteOne(b', base + |name|, 0, base + j);
    }
    SetByteOne(b', base + |name|, 0, base + |name|);
    CStrRead(b2, base, NAME_MAX, name);
  }

  /** The block of entry `e` is mapped now, and the map is otherwise the same. */
  ghost predicate Extended(st: Store, ptr: Roots, st': Store, ptr': Roots, e: nat) {
    && |st| == |st'| && e / PER_DIR_BLOCK < MAX_LOGICAL && Present(st', ptr', e)
    && forall m :: 0 <= m < MAX_LOGICAL && (m != e / PER_DIR_BLOCK || Lookup(st, ptr, m) != 0) ==> Lookup(st', ptr', m) == Lookup(st, ptr, m)
  }

  /** Entry `e` of `ptr'` holds the new name; it was unused, or it is the one after the last. */
  ghost predicate EntryAdded(st: Store, ptr: Roots, total: nat, st': Store, ptr': Roots, e: nat, n: Entry) {
    && total < PER_DIR_BLOCK * MAX_LOGICAL && OneEntry(st, ptr, st', ptr', e, n) && Extended(st, ptr, st', ptr', e)
    && e == FindUnused(st, ptr, total, 0)
  }

  /** Whether the scans reach the entry that an addition fills: an unused one, or the next one when no hole lies before its block. */
  predicate Reaches(st: Store, ptr: Roots, total: nat)
    requires total < PER_DIR_BLOCK * MAX_LOGICAL
  {
    FindUnused(st, ptr, total, 0) < total || Extent(st, ptr, total, 0) / PER_DIR_BLOCK == total / PER_DIR_BLOCK
  }

  /** Every mapped block is on the disk. */
  ghost predicate OnDisk(st: Store, ptr: Roots) {
    forall m :: 0 <= m < MAX_LOGICAL ==> Lookup(st, ptr, m) == 0 || Lookup(st, ptr, m) < |st|
  }

  lemma FileOnDisk(st: Store, ptr: Roots)
    requires FileOk(st, ptr)
    ensures OnDisk(st, ptr)
  {
    hide FileOk, Lookup;
    forall m | 0 <= m < MAX_LOGICAL && Lookup(st, ptr, m) != 0 ensures Lookup(st, ptr, m) < |st| { LookupData(st, ptr, m); }
  }

  lemma PresentLater(st: Store, ptr: Roots, st': Store, ptr': Roots, e: nat, x: nat)
    requires Extended(st, ptr, st', ptr', e) && OnDisk(st, ptr) && x / PER_DIR_BLOCK < MAX_LOGICAL
    ensures Present(st', ptr', x) <==> Present(st, ptr, x) || x / PER_DIR_BLOCK == e / PER_DIR_BLOCK
  {
    hide Lookup;
  }

  /** How far the scans see after an addition. */
  lemma ExtentAdded(st: Store, ptr: Roots, total: nat, st': Store, ptr': Roots, e: nat, n: Entry)
    requires EntryAdded(st, ptr, total, st', ptr', e, n)
    requires OnDisk(st, ptr)
    ensures var x, x' := Extent(st, ptr, total, 0), Extent(st', ptr', if e < total then total else total + 1, 0);
            && (if e < total then x' == x > e else x' == if Reaches(st, ptr, total) then total + 1 else x)
            && (forall y :: x <= y < x' && y != e ==> EntryAt(st', ptr', y).ino == 0)
  {
    FindUnusedIs(st, ptr, total, 0);
    hide Lookup, EntryAt, FindUnused, Extent, Extended, OnDisk, Present;
    var x := Extent(st, ptr, total, 0);
    if e == total && x / PER_DIR_BLOCK == total / PER_DIR_BLOCK {
      ExtentFilled(st, ptr, total, st', ptr');
      forall y | x <= y < total ensures EntryAt(st', ptr', y).ino == 0 {
        BlockBetween(x, y, total);
        HoleEntry(st, ptr, x, y);
        EntriesAre(st, ptr, st', ptr', e, n, y);
      }
    } else {
      ExtentKept(st, ptr, total, st', ptr', e);
    }
  }

  lemma BlockBetween(x: nat, y: nat, z: nat)
    requires x <= y <= z && x / PER_DIR_BLOCK == z / PER_DIR_BLOCK
    ensures y / PER_DIR_BLOCK == x / PER_DIR_BLOCK
  {
  }

  lemma ExtentFilled(st: Store, ptr: Roots, total: nat, st': Store, ptr': Roots)
    requires total < PER_DIR_BLOCK * MAX_LOGICAL && Extended(st, ptr, st', ptr', total) && OnDisk(st, ptr)
    requires Extent(st, ptr, total, 0) / PER_DIR_BLOCK == total / PER_DIR_BLOCK
    ensures Extent(st', ptr', total + 1, 0) == total + 1
  {
    hide Lookup, Extent, Extended, OnDisk, Present;
    var x := Extent(st, ptr, total, 0);
    forall y | 0 <= y < total + 1 ensures Present(st', ptr', y) {
      PresentLater(st, ptr, st', ptr', total, y);
      if x <= y { BlockBetween(x, y, total); }
    }
    ExtentIs(st', ptr', total + 1, total + 1);
  }

  lemma ExtentKept(st: Store, ptr: Roots, total: nat, st': Store, ptr': Roots, e: nat)
    requires total < PER_DIR_BLOCK * MAX_LOGICAL && Extended(st, ptr, st', ptr', e) && OnDisk(st, ptr) && e <= total
    requires if e < total then e < Extent(st, ptr, total, 0) else Extent(st, ptr, total, 0) / PER_DIR_BLOCK != total / PER_DIR_BLOCK
    ensures Extent(st', ptr', if e < total then total else total + 1, 0) == Extent(st, ptr, total, 0)
  {
    hide Lookup, Extent, Extended, OnDisk;
    var x := Extent(st, ptr, total, 0);
    forall y | 0 <= y <= x ensures Present(st', ptr', y) <==> Present(st, ptr, y) || y / PER_DIR_BLOCK == e / PER_DIR_BLOCK {
      PresentLater(st, ptr, st', ptr', e, y);
    }
    assert e < total ==> Present(st, ptr, e);
    assert x < total ==> x / PER_DIR_BLOCK != e / PER_DIR_BLOCK;
    hide Present;
    ExtentIs(st', ptr', if e < total then total else total + 1, x);
  }

  lemma HoleEntry(st: Store, ptr: Roots, x: nat, y: nat)
    requires x / PER_DIR_BLOCK == y / PER_DIR_BLOCK < MAX_LOGICAL && !Present(st, ptr, x)
    ensures EntryAt(st, ptr, y) == NO_ENTRY
  {
  }

  lemma AbsentAfter(st: Store, ptr: Roots, st': Store, ptr': Roots, e: nat, n: Entry, other: seq<byte>, x: nat, hi: nat)
    requires OneEntry(st, ptr, st', ptr', e, n) && hi <= PER_DIR_BLOCK * MAX_LOGICAL && x <= PER_DIR_BLOCK * MAX_LOGICAL
    requires Absent(st, ptr, other, 0, if hi < x then hi else x) && (!Live(n, other) || hi <= e)
    requires forall y :: x <= y < hi && y != e ==> EntryAt(st', ptr', y).ino == 0
    ensures Absent(st', ptr', other, 0, hi)
  {
    hide EntryAt;
  }

  /** The meaning of an addition: the new name is found at its entry if the scans reach it and see no earlier one; all others as before. */
  lemma FindAdded(st: Store, ptr: Roots, total: nat, st': Store, ptr': Roots, e: nat, n: Entry, other: seq<byte>)
    requires EntryAdded(st, ptr, total, st', ptr', e, n) && n.ino != 0
    requires OnDisk(st, ptr)
    ensures var total' := if e < total then total else total + 1;
            var r := Find(st, ptr, total, other, 0);
            Find(st', ptr', total', other, 0) ==
            if other == n.name && Reaches(st, ptr, total) && e <= r then e else if r < total then r else total'
  {
    var total' := if e < total then total else total + 1;
    var r := Find(st, ptr, total, other, 0);
    hide Lookup, EntryAt, Find, Extent, FindUnused, OnDisk, Extended, Reaches, Present, Absent;
    ExtentAdded(st, ptr, total, st', ptr', e, n);
    FindIs(st, ptr, total, other, 0);
    var x, x' := Extent(st, ptr, total, 0), Extent(st', ptr', total', 0);
    var hit := other == n.name && Reaches(st, ptr, total) && e <= r;
    var hi := if hit then e else if r < total then r else x';
    var cut := if hi < x then hi else x;
    assert Absent(st, ptr, other, 0, cut) by { AbsentLess(st, ptr, other, if r < total then r else x, cut); }
    EntriesAre(st, ptr, st', ptr', e, n, r);
    hide OneEntry;
    AbsentAfter(st, ptr, st', ptr', e, n, other, x, hi);
    FindFrom(st', ptr', total', other, 0, if hit then e else if r < total then r else total');
  }

  lemma AbsentLess(st: Store, ptr: Roots, name: seq<byte>, hi: nat, cut: nat)
    requires cut <= hi <= PER_DIR_BLOCK * MAX_LOGICAL && Absent(st, ptr, name, 0, hi)
    ensures Absent(st, ptr, name, 0, cut)
  {
    hide EntryAt;
  }

  lemma EntriesAre(st: Store, ptr: Roots, st': Store, ptr': Roots, e: nat, n: Entry, r: nat)
    requires OneEntry(st, ptr, st', ptr', e, n) && e < PER_DIR_BLOCK * MAX_LOGICAL
    ensures EntryAt(st', ptr', e) == n
    ensures r < PER_DIR_BLOCK * MAX_LOGICAL && r != e ==> EntryAt(st', ptr', r) == EntryAt(st, ptr, r)
  {
    hide EntryAt;
  }

  /** The meaning of a removal: the name is found at its next entry, all others as before. */
  lemma FindRemoved(st: Store, ptr: Roots, total: nat, st': Store, n: Entry, name: seq<byte>, other: seq<byte>)
    requires total <= PER_DIR_BLOCK * MAX_LOGICAL && |st'| == |st| && Find(st, ptr, total, name, 0) < total
    requires OneEntry(st, ptr, st', ptr, Find(st, ptr, total, name, 0), n) && n.ino == 0
    requires forall m :: 0 <= m < MAX_LOGICAL ==> Lookup(st', ptr, m) == Lookup(st, ptr, m)
    ensures Find(st', ptr, total, other, 0) == Find(st, ptr, total, other, if other == name then Find(st, ptr, total, name, 0) + 1 else 0)
  {
    hide Lookup, EntryAt, Find, Extent, Present, Absent, OneEntry;
    var e, x := Find(st, ptr, total, name, 0), Extent(st, ptr, total, 0);
    var s := if other == name then e + 1 else 0;
    var r := Find(st, ptr, total, other, s);
    ExtentSame(st, ptr, st', total);
    FindIs(st, ptr, total, name, 0);
    FindIs(st, ptr, total, other, s);
    ExtentTail(st, ptr, total, s);
    var hi := if r < total then r else x;
    EntriesAre(st, ptr, st', ptr, e, n, r);
    AbsentRemoved(st, ptr, st', e, n, other, s, hi);
    FindFrom(st', ptr, total, other, 0, r);
  }

  lemma ExtentSame(st: Store, ptr: Roots, st': Store, total: nat)
    requires total <= PER_DIR_BLOCK * MAX_LOGICAL && |st'| == |st|
    requires forall m :: 0 <= m < MAX_LOGICAL ==> Lookup(st', ptr, m) == Lookup(st, ptr, m)
    ensures Extent(st', ptr, total, 0) == Extent(st, ptr, total, 0)
  {
    hide Lookup, Extent;
    forall x | 0 <= x < total ensures Present(st', ptr, x) <==> Present(st, ptr, x) {
      assert Lookup(st', ptr, x / PER_DIR_BLOCK) == Lookup(st, ptr, x / PER_DIR_BLOCK);
    }
    ExtentIs(st', ptr, total, Extent(st, ptr, total, 0));
  }

  lemma AbsentRemoved(st: Store, ptr: Roots, st': Store, e: nat, n: Entry, other: seq<byte>, s: nat, hi: nat)
    requires OneEntry(st, ptr, st', ptr, e, n) && n.ino == 0 && hi <= PER_DIR_BLOCK * MAX_LOGICAL && s <= PER_DIR_BLOCK * MAX_LOGICAL
    requires Absent(st, ptr, other, s, hi) && (s > 0 ==> s == e + 1 && Absent(st, ptr, other, 0, e))
    ensures Absent(st', ptr, other, 0, hi)
  {
    hide EntryAt;
  }

  lemma ExtentTail(st: Store, ptr: Roots, total: nat, s: nat)
    requires total <= PER_DIR_BLOCK * MAX_LOGICAL && s <= Extent(st, ptr, total, 0)
    ensures Extent(st, ptr, total, s) == Extent(st, ptr, total, 0)
  {
    hide Present, Extent;
    var x, y := Extent(st, ptr, total, 0), Extent(st, ptr, total, s);
    assert x == y;
  }

  lemma OneEntryPlaced(st: Store, ptr: Roots, st1: Store, ptr1: Roots, st2: Store, e: nat, n: Entry)
    requires forall x :: 0 <= x < PER_DIR_BLOCK * MAX_LOGICAL ==> EntryAt(st1, ptr1, x) == EntryAt(st, ptr, x)
    requires OneEntry(st1, ptr1, st2, ptr1, e, n)
    ensures OneEntry(st, ptr, st2, ptr1, e, n)
  {
    hide EntryAt;
  }
}
