/**
 On-disk inodes: 116 packed bytes, that is 29 words, 35 to a block.
 */
module Inodes {
  import opened BlockTree
  import opened FileTree

  type u16 = x: int | 0 <= x < 0x1_0000
  type Padding = p: seq<u32> | |p| == 11 witness seq(11, _ => 0)

  datatype Inode = Inode(kind: u16, mode: u16, size: u32, blockCount: u32, ptr: Roots,
                         parent: u32, uid: u16, gid: u16, reserved: Padding)

  function NoPadding(): Padding { seq(11, _ => 0) }
  function EmptyInode(): Inode { Inode(0, 0, 0, 0, NoRoots(), 0, 0, 0, NoPadding()) }

  const MAX_INODES: nat := 1024
  const PER_BLOCK: nat := 35
  const WORDS: nat := 29

  const TYPE_FILE: u16 := 1
  const TYPE_DIR: u16 := 2

  function Encode(n: Inode): (w: seq<u32>)
    ensures |w| == WORDS
  {
    [n.kind + 0x1_0000 * n.mode, n.size, n.blockCount] + n.ptr +
    [n.parent, n.uid + 0x1_0000 * n.gid] + n.reserved
  }

  function Decode(w: seq<u32>): Inode
    requires |w| == WORDS
  {
    Inode(w[0] % 0x1_0000, w[0] / 0x1_0000, w[1], w[2], w[3..16], w[16],
          w[17] % 0x1_0000, w[17] / 0x1_0000, w[18..29])
  }

  lemma DecodeEncode(n: Inode)
    ensures Decode(Encode(n)) == n
  {
    var w := Encode(n);
    assert w[3..16] == n.ptr && w[18..29] == n.reserved;
    assert w[16] == n.parent && w[17] == n.uid + 0x1_0000 * n.gid;
  }

  // ----- The table -----

  function InodeAt(st: Store, tbl: nat, ino: nat): Inode
    requires ino < MAX_INODES && tbl + 30 <= |st|
  {
    var s := WORDS * (ino % PER_BLOCK);
    Decode(st[tbl + ino / PER_BLOCK][s..s + WORDS])
  }

  function PutInode(b: Block, slot: nat, n: Inode): Block
    requires slot < PER_BLOCK
  {
    b[..WORDS * slot] + Encode(n) + b[WORDS * slot + WORDS..]
  }

  function Table(st: Store, tbl: nat): seq<Inode>
    requires tbl + 30 <= |st|
  {
    seq(MAX_INODES, i requires 0 <= i < MAX_INODES => InodeAt(st, tbl, i))
  }

  function TableRoots(st: Store, tbl: nat): seq<Roots>
    requires tbl + 30 <= |st|
  {
    seq(MAX_INODES, i requires 0 <= i < MAX_INODES => InodeAt(st, tbl, i).ptr)
  }

  lemma OtherSlot(b: Block, slot: nat, n: Inode, s: nat)
    requires slot < PER_BLOCK && s < PER_BLOCK && s != slot
    ensures PutInode(b, slot, n)[WORDS * s..WORDS * s + WORDS] == b[WORDS * s..WORDS * s + WORDS]
  {
    hide Encode;
    var lo, at := WORDS * slot, WORDS * s;
    var r := PutInode(b, slot, n);
    assert if s < slot then at + WORDS <= lo else lo + WORDS <= at;
    forall i | at <= i < at + WORDS ensures r[i] == b[i] {
    }
  }

  /** Storing an inode changes that inode and no other one. */
  lemma WriteInodeTable(st: Store, st': Store, tbl: nat, ino: nat, n: Inode)
    requires ino < MAX_INODES && tbl + 30 <= |st|
    requires st' == st[tbl + ino / PER_BLOCK := PutInode(st[tbl + ino / PER_BLOCK], ino % PER_BLOCK, n)]
    ensures Table(st', tbl) == Table(st, tbl)[ino := n]
    ensures TableRoots(st', tbl) == TableRoots(st, tbl)[ino := n.ptr]
  {
    var b, slot := tbl + ino / PER_BLOCK, ino % PER_BLOCK;
    forall j | 0 <= j < MAX_INODES ensures InodeAt(st', tbl, j) == if j == ino then n else InodeAt(st, tbl, j) {
      var s := j % PER_BLOCK;
      if j == ino {
        assert st'[b][WORDS * s..WORDS * s + WORDS] == Encode(n);
        DecodeEncode(n);
      } else if tbl + j / PER_BLOCK == b {
        OtherSlot(st[b], slot, n, s);
      }
    }
  }

  /** Writes outside the table leave it alone. */
  lemma TableFrame(st: Store, st': Store, tbl: nat)
    requires tbl + 30 <= |st| == |st'|
    requires forall b :: tbl <= b < tbl + 30 ==> st'[b] == st[b]
    ensures Table(st', tbl) == Table(st, tbl) && TableRoots(st', tbl) == TableRoots(st, tbl)
  {
    forall j | 0 <= j < MAX_INODES ensures InodeAt(st', tbl, j) == InodeAt(st, tbl, j) {
      assert tbl <= tbl + j / PER_BLOCK < tbl + 30;
    }
  }
}
