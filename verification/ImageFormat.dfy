/**
 The bytes that the image builder packs into inodes and directory entries, and what the kernel reads
 from them.
 */
module ImageFormat {
  import opened BlockTree
  import opened FileTree
  import opened FileData
  import opened ReadPath
  import opened Inodes
  import opened Directory

  // ----- struct.pack -----

  function Le16(v: u16): seq<byte> { [v % 256, v / 256] }

  function Le32(v: u32): seq<byte> { [v % 256, v / 256 % 256, v / 65536 % 256, v / 16777216] }

  function PackWords(ws: seq<u32>): (r: seq<byte>)
    ensures |r| == 4 * |ws|
  {
    if ws == [] then [] else Le32(ws[0]) + PackWords(ws[1..])
  }

  function Zeros(n: nat): (r: seq<byte>)
    ensures |r| == n
  {
    seq(n, _ => 0)
  }

  function PackInode(n: Inode): (r: seq<byte>)
    ensures |r| == 116
  {
    Le16(n.kind) + Le16(n.mode) + Le32(n.size) + Le32(n.blockCount) + PackWords(n.ptr) +
    Le32(n.parent) + Le16(n.uid) + Le16(n.gid) + Zeros(44)
  }

  function PackDentry(child: u32, kind: byte, name: seq<byte>): (r: seq<byte>)
    requires |name| <= 58
    ensures |r| == 64
  {
    Le32(child) + [|name|, kind] + name + Zeros(58 - |name|)
  }

  /** The bytes of block `b` from `at` on are `bytes`. */
  ghost predicate Holds(b: Block, at: nat, bytes: seq<byte>) {
    at + |bytes| <= BLOCK_SIZE && forall k :: 0 <= k < |bytes| ==> ByteAt(b, at + k) == bytes[k]
  }

  // ----- Words and bytes -----

  lemma HoldsPart(b: Block, at: nat, x: seq<byte>, y: seq<byte>, z: seq<byte>)
    requires Holds(b, at, x + y + z)
    ensures Holds(b, at + |x|, y)
  {
    hide ByteAt;
    forall k | 0 <= k < |y| ensures ByteAt(b, at + |x| + k) == y[k] {
      assert (x + y + z)[|x| + k] == y[k] && ByteAt(b, at + (|x| + k)) == (x + y + z)[|x| + k];
    }
  }

  /** A word of a block has its bytes lowest first. */
  lemma WordIs(b: Block, w: nat, v: u32)
    requires w < PTRS && Holds(b, 4 * w, Le32(v))
    ensures b[w] == v
  {
    LeBytes(v);
    hide ByteAt, WordByte, Le32, Join;
    forall i | 0 <= i < 4 ensures WordByte(b[w], i) == WordByte(v, i) {
      ByteIn(b, w, i);
      assert ByteAt(b, 4 * w + i) == Le32(v)[i];
    }
    WordBytes(b[w]);
    WordBytes(v);
  }

  lemma ByteIn(b: Block, w: nat, i: nat)
    requires w < PTRS && i < 4
    ensures ByteAt(b, 4 * w + i) == WordByte(b[w], i)
  {
    assert (4 * w + i) / 4 == w;
  }

  lemma LeBytes(v: u32)
    ensures |Le32(v)| == 4 && forall i :: 0 <= i < 4 ==> Le32(v)[i] == WordByte(v, i)
  {
  }

  lemma {:induction false} WordsAre(b: Block, w: nat, ws: seq<u32>)
    requires w + |ws| <= PTRS && Holds(b, 4 * w, PackWords(ws))
    ensures b[w..w + |ws|] == ws
    decreases |ws|
  {
    hide Le32, ByteAt;
    if ws != [] {
      var head, tail := Le32(ws[0]), PackWords(ws[1..]);
      assert [] + head + tail == PackWords(ws) && head + tail + [] == PackWords(ws);
      HoldsPart(b, 4 * w, [], head, tail);
      WordIs(b, w, ws[0]);
      assert |head| == 4 by { LeLength(ws[0]); }
      HoldsPart(b, 4 * w, head, tail, []);
      WordsAre(b, w + 1, ws[1..]);
      assert b[w..w + |ws|] == [b[w]] + b[w + 1..w + |ws|];
    }
  }

  lemma LeLength(v: u32)
    ensures |Le32(v)| == 4
  {
  }

  lemma Le16Pair(a: u16, b: u16)
    ensures Le16(a) + Le16(b) == Le32(a + 65536 * b)
  {
    var v := a + 65536 * b;
    assert v / 256 == a / 256 + 256 * b && v / 65536 == b && v / 16777216 == b / 256;
  }

  lemma {:induction false} PackConcat(a: seq<u32>, b: seq<u32>)
    ensures PackWords(a + b) == PackWords(a) + PackWords(b)
    decreases |a|
  {
    hide Le32;
    if a == [] {
      assert a + b == b;
    } else {
      assert (a + b)[1..] == a[1..] + b;
      PackConcat(a[1..], b);
    }
  }

  lemma {:induction false} PackZeros(n: nat)
    ensures PackWords(seq(n, _ => 0)) == Zeros(4 * n)
  {
    if n > 0 {
      var s: seq<u32> := seq(n, _ => 0);
      PackZeros(n - 1);
      assert s[1..] == seq(n - 1, _ => 0);
      assert Zeros(4 * n) == [0, 0, 0, 0] + Zeros(4 * (n - 1));
    }
  }

  /** The packed inode is the little-endian form of the kernel's words. */
  lemma PackedWords(n: Inode)
    requires n.reserved == NoPadding()
    ensures PackInode(n) == PackWords(Encode(n))
  {
    hide Le16, Le32, PackWords, Zeros;
    var a, c := [n.kind + 65536 * n.mode, n.size, n.blockCount], [n.parent, n.uid + 65536 * n.gid];
    assert Encode(n) == a + n.ptr + c + n.reserved;
    PackConcat(a + n.ptr + c, n.reserved);
    PackConcat(a + n.ptr, c);
    PackConcat(a, n.ptr);
    PackZeros(11);
    Le16Pair(n.kind, n.mode);
    Le16Pair(n.uid, n.gid);
    assert PackWords(a) == Le32(a[0]) + Le32(a[1]) + Le32(a[2]) by { PackThree(a[0], a[1], a[2]); }
    assert PackWords(c) == Le32(c[0]) + Le32(c[1]) by { PackTwo(c[0], c[1]); }
    assert PackInode(n) == (Le16(n.kind) + Le16(n.mode)) + Le32(n.size) + Le32(n.blockCount) + PackWords(n.ptr) +
                           (Le32(n.parent) + (Le16(n.uid) + Le16(n.gid))) + Zeros(44);
  }

  lemma PackTwo(a: u32, b: u32)
    ensures PackWords([a, b]) == Le32(a) + Le32(b)
  {
    hide Le32;
    assert [a, b][1..] == [b] && [b][1..] == [];
  }

  lemma PackThree(a: u32, b: u32, c: u32)
    ensures PackWords([a, b, c]) == Le32(a) + Le32(b) + Le32(c)
  {
    hide Le32;
    assert [a, b, c][1..] == [b, c];
    PackTwo(b, c);
  }

  /** The inode that the kernel stores for a free number is 116 zero bytes. */
  lemma EmptyPacked()
    ensures PackInode(EmptyInode()) == Zeros(116)
  {
    PackZeros(13);
    assert NoRoots() == seq(13, _ => 0);
  }

  // ----- The kernel's view -----

  /** An inode packed at byte `116 * (ino % 35)` of its table block is the one the kernel reads. */
  lemma KernelReadsInode(st: Store, tbl: nat, ino: nat, n: Inode)
    requires ino < MAX_INODES && tbl + 30 <= |st| && n.reserved == NoPadding()
    requires Holds(st[tbl + ino / 35], 116 * (ino % 35), PackInode(n))
    ensures InodeAt(st, tbl, ino) == n
  {
    hide Encode, Decode, PackInode, PackWords, Holds;
    PackedWords(n);
    DecodeEncode(n);
    assert 116 * (ino % 35) == 4 * (29 * (ino % 35));
    WordsAre(st[tbl + ino / 35], 29 * (ino % 35), Encode(n));
  }

  /** A directory entry packed at byte `64 * i` of a block is the one the kernel reads, if its name leaves room for the NUL. */
  lemma KernelReadsDentry(b: Block, i: nat, child: u32, kind: byte, name: seq<byte>)
    requires i < 64 && |name| <= 57 && 0 !in name && Holds(b, 64 * i, PackDentry(child, kind, name))
    ensures DirEntry(b, i) == Named(child, kind, name)
  {
    hide Le32, ByteAt, CStr, Zeros;
    LeLength(child);
    var head, mid, tail := Le32(child), [|name| as byte, kind], Zeros(58 - |name|);
    var all := PackDentry(child, kind, name);
    assert all == [] + head + (mid + name + tail) && all == head + mid + (name + tail) && all == (head + mid) + name + tail;
    HoldsPart(b, 64 * i, [], head, mid + name + tail);
    WordIs(b, 16 * i, child);
    HoldsPart(b, 64 * i, head, mid, name + tail);
    assert ByteAt(b, 64 * i + 4 + 0) == mid[0] && ByteAt(b, 64 * i + 4 + 1) == mid[1];
    HoldsPart(b, 64 * i, head + mid, name, tail);
    assert ByteAt(b, 64 * i + (6 + |name|)) == all[6 + |name|] == 0 by { ZeroFirst(58 - |name|); }
    CStrRead(b, 64 * i + 6, NAME_MAX, name);
  }

  lemma ZeroFirst(n: nat)
    requires n > 0
    ensures Zeros(n)[0] == 0
  {
  }
}
