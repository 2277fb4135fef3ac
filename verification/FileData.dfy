/**
 The bytes of a file: byte `pos` is byte `pos % 4096` of the disk block of logical block `pos / 4096`.
 */
module FileData {
  import opened BlockTree
  import opened FileTree
  import opened Accounts

  type byte = x: int | 0 <= x < 256

  const BLOCK_SIZE: nat := 4096

  // ----- Bytes of a block (little endian words) -----

  function Join(b0: byte, b1: byte, b2: byte, b3: byte): u32 {
    b0 + 0x100 * b1 + 0x1_0000 * b2 + 0x100_0000 * b3
  }

  function WordByte(w: u32, i: nat): byte
    requires i < 4
  {
    if i == 0 then w % 0x100
    else if i == 1 then w / 0x100 % 0x100
    else if i == 2 then w / 0x1_0000 % 0x100
    else w / 0x100_0000
  }

  function SetWordByte(w: u32, i: nat, v: byte): u32
    requires i < 4
  {
    Join(if i == 0 then v else WordByte(w, 0), if i == 1 then v else WordByte(w, 1),
         if i == 2 then v else WordByte(w, 2), if i == 3 then v else WordByte(w, 3))
  }

  lemma JoinBytes(b0: byte, b1: byte, b2: byte, b3: byte)
    ensures WordByte(Join(b0, b1, b2, b3), 0) == b0 && WordByte(Join(b0, b1, b2, b3), 1) == b1
    ensures WordByte(Join(b0, b1, b2, b3), 2) == b2 && WordByte(Join(b0, b1, b2, b3), 3) == b3
  {
    var w := Join(b0, b1, b2, b3);
    assert w / 0x100 == b1 + 0x100 * b2 + 0x1_0000 * b3;
    assert w / 0x1_0000 == b2 + 0x100 * b3;
  }

  function ByteAt(b: Block, k: nat): byte
    requires k < BLOCK_SIZE
  {
    WordByte(b[k / 4], k % 4)
  }

  /** Storing one byte. */
  function SetByte(b: Block, k: nat, v: byte): Block
    requires k < BLOCK_SIZE
  {
    b[k / 4 := SetWordByte(b[k / 4], k % 4, v)]
  }

  lemma SetByteOne(b: Block, k: nat, v: byte, j: nat)
    requires k < BLOCK_SIZE && j < BLOCK_SIZE
    ensures ByteAt(SetByte(b, k, v), j) == if j == k then v else ByteAt(b, j)
  {
    var w, i := b[k / 4], k % 4;
    JoinBytes(if i == 0 then v else WordByte(w, 0), if i == 1 then v else WordByte(w, 1),
              if i == 2 then v else WordByte(w, 2), if i == 3 then v else WordByte(w, 3));
    hide WordByte, Join;
    if j / 4 == k / 4 { assert j % 4 == i <==> j == k; }
  }

  lemma ZeroBytes(k: nat)
    requires k < BLOCK_SIZE
    ensures ByteAt(ZERO_BLOCK, k) == 0
  {
  }

  // ----- Bytes of a file -----

  datatype Cell = Hole | Byte(v: byte)

  const MAX_POS: nat := 4096 * MAX_LOGICAL

  function FileByte(st: Store, ptr: Roots, pos: nat): Cell
    requires pos < MAX_POS
  {
    var d := Lookup(st, ptr, pos / BLOCK_SIZE);
    if 0 < d < |st| then Byte(ByteAt(st[d], pos % BLOCK_SIZE)) else Hole
  }

  /** `pos` lies in a block that the bytes `[off, off + w)` reach. */
  predicate Reached(off: nat, w: nat, pos: nat) {
    w > 0 && off / BLOCK_SIZE <= pos / BLOCK_SIZE <= (off + w - 1) / BLOCK_SIZE
  }

  /** What byte `pos` holds after `buf[..w]` was written at `off`, given what it held before. */
  function AfterWrite(before: Cell, off: nat, buf: seq<byte>, w: nat, pos: nat): Cell
    requires w <= |buf|
  {
    if off <= pos < off + w then Byte(buf[pos - off])
    else if before == Hole && Reached(off, w, pos) then Byte(0)
    else before
  }

  ghost predicate Wrote(st0: Store, ptr0: Roots, st: Store, ptr: Roots, off: nat, buf: seq<byte>, w: nat) {
    w <= |buf| && forall pos :: 0 <= pos < MAX_POS ==>
      FileByte(st, ptr, pos) == AfterWrite(FileByte(st0, ptr0, pos), off, buf, w, pos)
  }

  lemma WroteNothing(st: Store, ptr: Roots, off: nat, buf: seq<byte>)
    ensures Wrote(st, ptr, st, ptr, off, buf, 0)
  {
    hide FileByte;
  }

  /** A cleared block at logical block `n`: its bytes read 0, all others are as before. */
  lemma PlacedBytes(st: Store, ptr: Roots, st': Store, ptr': Roots, n: nat, d: nat, pos: nat)
    requires Placed(st, ptr, st', ptr', n, d) && |st| == |st'| && 0 < d < |st'| && st'[d] == ZERO_BLOCK
    requires pos < MAX_POS
    ensures FileByte(st', ptr', pos) == if pos / BLOCK_SIZE == n then Byte(0) else FileByte(st, ptr, pos)
  {
    ZeroBytes(pos % BLOCK_SIZE);
    hide ByteAt, Lookup;
    assert SameData(st, st', Lookup(st, ptr, pos / BLOCK_SIZE));
  }

  /** Overwriting the data block of logical block `n`. */
  lemma StoredBytes(st: Store, ptr: Roots, n: nat, b: Block, pos: nat)
    requires FileOk(st, ptr) && n < MAX_LOGICAL && pos < MAX_POS && 0 < Lookup(st, ptr, n) < |st|
    ensures SameFile(st, st[Lookup(st, ptr, n) := b], ptr)
    ensures FileByte(st[Lookup(st, ptr, n) := b], ptr, pos) ==
              if pos / BLOCK_SIZE == n then Byte(ByteAt(b, pos % BLOCK_SIZE)) else FileByte(st, ptr, pos)
  {
    hide Tree, In, ByteAt, Walk;
    var d := Lookup(st, ptr, n);
    LookupData(st, ptr, n);
    FileFrame(st, st[d := b], ptr);
    var m := pos / BLOCK_SIZE;
    assert Proper(SlotOf(m)) && Proper(SlotOf(n));
    if m != n { LookupInjective(st, ptr, n, m); }
  }

  /** Writing data into a block of the file is a legal change. */
  lemma DataChange(st0: Store, ptr0: Roots, bm0: Bits, st: Store, ptr: Roots, bm: Bits, n: nat, b: Block)
    requires Change(st0, ptr0, bm0, st, ptr, bm, {}) && n < MAX_LOGICAL && 0 < Lookup(st, ptr, n) < |st|
    ensures Change(st0, ptr0, bm0, st[Lookup(st, ptr, n) := b], ptr, bm, {})
  {
    hide Tree, In, Walk;
    LookupData(st, ptr, n);
    FileFrame(st, st[Lookup(st, ptr, n) := b], ptr);
  }

  lemma ChangeTrans(st0: Store, ptr0: Roots, bm0: Bits, st: Store, ptr: Roots, bm: Bits, st': Store, ptr': Roots, bm': Bits)
    requires Change(st0, ptr0, bm0, st, ptr, bm, {}) && Change(st, ptr, bm, st', ptr', bm', {})
    ensures Change(st0, ptr0, bm0, st', ptr', bm', {})
  {
    hide Tree, In, FileIn, FileOk;
  }

  /** Bytes `[bo, bo + |data|)` of `b` are `data` in `b'`; the others are unchanged. */
  ghost predicate Spliced(b: Block, b': Block, bo: nat, data: seq<byte>) {
    bo + |data| <= BLOCK_SIZE && forall k :: 0 <= k < BLOCK_SIZE ==>
      ByteAt(b', k) == if bo <= k < bo + |data| then data[k - bo] else ByteAt(b, k)
  }

  /** Logical block `n` is mapped: if it was a hole it now reads 0, and nothing else changed. */
  ghost predicate Mapped(st: Store, ptr: Roots, st1: Store, ptr1: Roots, n: nat) {
    forall pos :: 0 <= pos < MAX_POS ==>
      FileByte(st1, ptr1, pos) ==
      (if pos / BLOCK_SIZE == n && FileByte(st, ptr, pos) == Hole then Byte(0) else FileByte(st, ptr, pos))
  }

  lemma MappedNew(st: Store, ptr: Roots, st1: Store, ptr1: Roots, n: nat, d: nat)
    requires Placed(st, ptr, st1, ptr1, n, d) && |st| == |st1| && 0 < d < |st1| && st1[d] == ZERO_BLOCK
    requires n < MAX_LOGICAL && Lookup(st, ptr, n) == 0
    ensures Mapped(st, ptr, st1, ptr1, n)
  {
    hide Lookup, Placed, ByteAt;
    forall pos | 0 <= pos < MAX_POS
      ensures FileByte(st1, ptr1, pos) ==
              (if pos / BLOCK_SIZE == n && FileByte(st, ptr, pos) == Hole then Byte(0) else FileByte(st, ptr, pos))
    {
      PlacedBytes(st, ptr, st1, ptr1, n, d, pos);
    }
  }

  lemma MappedOld(st: Store, ptr: Roots, n: nat)
    requires n < MAX_LOGICAL && 0 < Lookup(st, ptr, n) < |st|
    ensures Mapped(st, ptr, st, ptr, n)
  {
    hide Lookup, ByteAt;
  }

  /** One round of the write loop. */
  lemma WroteStep(st0: Store, ptr0: Roots, st: Store, ptr: Roots, off: nat, buf: seq<byte>, w: nat, c: nat,
                  st1: Store, ptr1: Roots, b: Block)
    requires Wrote(st0, ptr0, st, ptr, off, buf, w) && 0 < c && w + c <= |buf| && off + |buf| <= MAX_POS
    requires (off + w) % BLOCK_SIZE + c <= BLOCK_SIZE && (w == 0 || (off + w) % BLOCK_SIZE == 0)
    requires FileOk(st1, ptr1) && 0 < Lookup(st1, ptr1, (off + w) / BLOCK_SIZE) < |st1|
    requires Mapped(st, ptr, st1, ptr1, (off + w) / BLOCK_SIZE)
    requires Spliced(st1[Lookup(st1, ptr1, (off + w) / BLOCK_SIZE)], b, (off + w) % BLOCK_SIZE, buf[w..w + c])
    ensures Wrote(st0, ptr0, st1[Lookup(st1, ptr1, (off + w) / BLOCK_SIZE) := b], ptr1, off, buf, w + c)
  {
    hide Tree, In, ByteAt, Walk, FileOk, SameFile, SlotOf;
    var n := (off + w) / BLOCK_SIZE;
    var d := Lookup(st1, ptr1, n);
    var st2 := st1[d := b];
    forall pos | 0 <= pos < MAX_POS
      ensures FileByte(st2, ptr1, pos) == AfterWrite(FileByte(st0, ptr0, pos), off, buf, w + c, pos)
    {
      StoredBytes(st1, ptr1, n, b, pos);
      WrotePos(off, buf, w, c, pos, FileByte(st0, ptr0, pos));
    }
  }

  lemma WrotePos(off: nat, buf: seq<byte>, w: nat, c: nat, pos: nat, before: Cell)
    requires 0 < c && w + c <= |buf|
    requires (off + w) % BLOCK_SIZE + c <= BLOCK_SIZE && (w == 0 || (off + w) % BLOCK_SIZE == 0)
    ensures pos / BLOCK_SIZE != (off + w) / BLOCK_SIZE ==> AfterWrite(before, off, buf, w + c, pos) == AfterWrite(before, off, buf, w, pos)
    ensures pos / BLOCK_SIZE == (off + w) / BLOCK_SIZE ==>
              AfterWrite(before, off, buf, w + c, pos) ==
              if (off + w) % BLOCK_SIZE <= pos % BLOCK_SIZE < (off + w) % BLOCK_SIZE + c
              then Byte(buf[w..w + c][pos % BLOCK_SIZE - (off + w) % BLOCK_SIZE])
              else if AfterWrite(before, off, buf, w, pos) == Hole then Byte(0) else AfterWrite(before, off, buf, w, pos)
  {
  }

  lemma PlacedAt(st0: Store, ptr0: Roots, st: Store, ptr: Roots, n: nat, v: nat)
    requires Placed(st0, ptr0, st, ptr, n, v) && n < MAX_LOGICAL
    ensures Lookup(st, ptr, n) == v
  {
  }

  lemma WroteSame(st0: Store, ptr0: Roots, st: Store, ptr: Roots, off: nat, buf: seq<byte>, w: nat, st': Store, ptr': Roots)
    requires Wrote(st0, ptr0, st, ptr, off, buf, w) && SameMap(st, ptr, st', ptr') && |st| == |st'|
    ensures Wrote(st0, ptr0, st', ptr', off, buf, w)
  {
    hide Lookup, ByteAt;
    forall pos | 0 <= pos < MAX_POS ensures FileByte(st', ptr', pos) == FileByte(st, ptr, pos) {
      assert SameData(st, st', Lookup(st, ptr, pos / BLOCK_SIZE));
    }
  }
}
