/**
 The user heap: block headers split, merged and relinked in place from `head`. Addresses are plain
 numbers, 0 is the null pointer, and the address the kernel grants for a mapping is a parameter (0
 when it refuses).
 */
module Heap {
  import opened HeapList

  function Byte(m: map<nat, int>, a: nat): int {
    if a in m then m[a] else 0
  }

  /** The payload bytes of every block in use other than the one at `a` are as before. */
  ghost predicate OthersKept(bs: seq<Blk>, m: map<nat, int>, m': map<nat, int>, a: nat) {
    forall x: nat, s: nat, i: nat :: Live(bs, x, s) && x != a && x + HEADER <= i < x + s ==> Byte(m', i) == Byte(m, i)
  }

  /** The first `n` bytes from one address are now at the other. */
  ghost predicate Copied(m: map<nat, int>, m': map<nat, int>, from: nat, to: nat, n: int) {
    forall i: nat :: i < n ==> CopiedAt(m, m', from, to, i)
  }

  predicate CopiedAt(m: map<nat, int>, m': map<nat, int>, from: nat, to: nat, i: nat) {
    Byte(m', to + i) == Byte(m, from + i)
  }

  class Heap {
    var hdr: map<nat, Header>
    var head: nat
    var mem: map<nat, int>
    ghost var blocks: seq<Blk>
    ghost var mapped: nat

    constructor ()
      ensures Valid() && blocks == [] && mapped == 0
    {
      hdr, head, mem := map[], 0, map[];
      blocks, mapped := [], 0;
    }

    /** Disjoint linked blocks that account for every mapped byte, with free neighbours merged. */
    ghost predicate Valid()
      reads this
    {
      Tidy(blocks) && Merged(blocks) && Linked(hdr, head, blocks) && Total(blocks) == mapped
    }

    method FindTail() returns (tail: nat)
      requires Valid() && head != 0
      ensures |blocks| > 0 && tail == blocks[|blocks| - 1].addr && LinkAt(hdr, blocks, |blocks| - 1)
    {
      hide Tidy, Merged, Total;
      tail := head;
      ghost var k := 0;
      assert LinkAt(hdr, blocks, 0);
      while hdr[tail].next != 0
        invariant 0 <= k < |blocks| && tail == blocks[k].addr && LinkAt(hdr, blocks, k)
        decreases |blocks| - k
      {
        tail := hdr[tail].next;
        k := k + 1;
        assert LinkAt(hdr, blocks, k);
      }
      AddrZero(blocks, k + 1);
    }

    /** Appends a mapping, or grows the last block if it is free and touches it. */
    method Expand(min: nat, grant: nat) returns (b: nat)
      requires Valid() && min < WORD
      requires grant > 0 && Pages(min) > 0 ==> Granted(blocks, Blk(grant, Pages(min) * 4096, true))
      modifies this`hdr, this`head, this`blocks, this`mapped
      ensures Valid() && SameLive(old(blocks), blocks)
      ensures b == 0 ==> (grant == 0 || Pages(min) == 0) && blocks == old(blocks) && mapped == old(mapped)
      ensures b != 0 ==> mapped == old(mapped) + Pages(min) * 4096
      ensures b != 0 ==> |blocks| > 0 && blocks[|blocks| - 1].free && blocks[|blocks| - 1].size >= min
      ensures b != 0 ==> |blocks| <= |old(blocks)| + 1 && forall k :: 0 <= k < |blocks| - 1 ==> blocks[k] == old(blocks)[k]
    {
      hide Tidy, Merged, Total, Live, Pages, Linked, Granted, LinkAt;
      var pages := Pages(min);
      if grant == 0 || pages == 0 {
        return 0;
      }
      PagesEnough(min);
      ghost var nb, bs := Blk(grant, pages * 4096, true), blocks;
      AppendTidy(bs, nb);
      AppendTotal(bs, nb);
      AppendLive(bs, nb);
      AppendSpare(bs, nb);
      SpareLinked(hdr, head, bs, grant, Header(pages * 4096, true, 0, 0));
      hdr := hdr[grant := Header(pages * 4096, true, 0, 0)];
      if head == 0 {
        EmptyLinked(hdr, bs, nb);
        AppendMerged(bs, nb);
        head := grant;
        blocks, mapped := bs + [nb], mapped + pages * 4096;
        return grant;
      }
      var tail := FindTail();
      mapped := mapped + pages * 4096;
      ghost var n := |bs| - 1;
      assert tail in hdr && hdr[tail].size == bs[n].size && hdr[tail].free == bs[n].free by { NextLinked(hdr, head, bs, n); }
      if tail + hdr[tail].size == grant && hdr[tail].free {
        ghost var grown := bs[n].(size := bs[n].size + pages * 4096);
        GrowLast(bs, nb);
        TidyDistinct(bs);
        UpdateLinked(hdr, head, bs, n, grown);
        hdr := hdr[tail := hdr[tail].(size := hdr[tail].size + pages * 4096)];
        blocks := bs[n := grown];
        return tail;
      }
      AppendMerged(bs, nb);
      AppendLinked(hdr, head, bs, nb);
      hdr := hdr[grant := Header(pages * 4096, true, 0, tail)];
      hdr := hdr[tail := hdr[tail].(next := grant)];
      blocks := bs + [nb];
      b := grant;
    }

    /** `k` is the first free block of at least `need` bytes. */
    ghost predicate FirstFit(bs: seq<Blk>, k: nat, need: nat) {
      && k < |bs| && bs[k].free && bs[k].size >= need
      && (forall j :: 0 <= j < k ==> !(bs[j].free && bs[j].size >= need))
    }

    /** Takes free block `b`, cutting off what it does not need if that makes a block of its own. */
    method Take(b: nat, ghost k: nat, need: nat) returns (ghost n: nat)
      requires Valid() && k < |blocks| && blocks[k].addr == b && blocks[k].free && blocks[k].size >= need
      requires need % 16 == 0 && need >= LEAST
      modifies this`hdr, this`blocks
      ensures Valid() && Total(blocks) == Total(old(blocks))
      ensures need <= n < need + LEAST && Added(old(blocks), blocks, b, n) && b > 0 && b % 16 == 0
    {
      assert Sound(blocks[k]);
      hide Tidy, Merged, Total, Live, Linked, SplitAt, Added;
      TidyDistinct(blocks);
      UpdateLinked(hdr, head, blocks, k, blocks[k].(free := false));
      ghost var h0, bs := hdr, blocks;
      n := blocks[k].size;
      var remainder := hdr[b].size - need;
      if remainder >= LEAST {
        n := need;
        CutAndTake(bs, k, need);
        SplitLinked(h0, head, bs, k, need);
        var split := b + need;
        hdr := hdr[split := Header(remainder, true, hdr[b].next, b)];
        if hdr[b].next != 0 {
          NextLinked(h0, head, bs, k);
          hdr := hdr[hdr[b].next := hdr[hdr[b].next].(prev := split)];
        }
        hdr := hdr[b := hdr[b].(next := split)];
        hdr := hdr[b := hdr[b].(size := need)];
        assert hdr == SplitHdr(h0, b, need);
        blocks := SplitAt(bs, k, need);
        SplitElems(bs, k, need);
        TidyDistinct(blocks);
        UpdateLinked(hdr, head, blocks, k, blocks[k].(free := false));
      } else {
        TakeWhole(bs, k);
      }
      hdr := hdr[b := hdr[b].(free := false)];
      blocks := Marked(blocks, k, false);
    }

    /** Takes the first block that fits, cutting off the rest if that makes a block of its own. */
    method Fit(need: nat) returns (b: nat, ghost n: nat)
      requires Valid() && need % 16 == 0 && need >= LEAST
      modifies this`hdr, this`blocks
      ensures Valid() && Total(blocks) == Total(old(blocks))
      ensures b == 0 ==> blocks == old(blocks) && forall k :: 0 <= k < |blocks| ==> !(blocks[k].free && blocks[k].size >= need)
      ensures b != 0 ==> need <= n < need + LEAST && b % 16 == 0 && Added(old(blocks), blocks, b, n)
      ensures b != 0 ==> exists k: nat :: FirstFit(old(blocks), k, need) && b == old(blocks)[k].addr
    {
      hide Merged, Total, Live, Tidy;
      b, n := head, 0;
      ghost var k := 0;
      while b != 0
        invariant 0 <= k <= |blocks| && b == AddrAt(blocks, k)
        invariant forall j :: 0 <= j < k ==> !(blocks[j].free && blocks[j].size >= need)
        decreases |blocks| - k
      {
        assert LinkAt(hdr, blocks, k);
        if hdr[b].free && hdr[b].size >= need {
          n := Take(b, k, need);
          assert FirstFit(old(blocks), k, need);
          return;
        }
        b := hdr[b].next;
        k := k + 1;
      }
      assert k == |blocks| by { AddrZero(blocks, k); }
    }

    /**
     A block of at least the requested size, taken by first fit; one expansion at most is tried. The
     block holds the request exactly when the size arithmetic did not wrap around.
     */
    method Malloc(size: nat, grant: nat) returns (ptr: nat, ghost n: nat)
      requires Valid() && size < WORD
      requires grant > 0 && Pages(Need(size)) > 0 ==> Granted(blocks, Blk(grant, Pages(Need(size)) * 4096, true))
      modifies this`hdr, this`head, this`blocks, this`mapped
      ensures Valid()
      ensures size == 0 ==> ptr == 0
      ensures ptr == 0 ==> blocks == old(blocks)
      ensures ptr == 0 && size > 0 ==> grant == 0 || Pages(Need(size)) == 0
      ensures ptr == 0 && size > 0 ==> forall k :: 0 <= k < |blocks| ==> !(blocks[k].free && blocks[k].size >= Need(size))
      ensures ptr != 0 ==> ptr > HEADER && ptr % 16 == 0 && Added(old(blocks), blocks, ptr - HEADER, n)
      ensures ptr != 0 ==> Need(size) <= n < Need(size) + LEAST && (size + HEADER <= n <==> size <= WORD - 48)
      ensures forall k: nat :: size > 0 && FirstFit(old(blocks), k, Need(size)) ==> ptr == old(blocks)[k].addr + HEADER
      ensures mapped == old(mapped) || mapped == old(mapped) + Pages(Need(size)) * 4096
    {
      hide Linked, Tidy, Merged, Total, Live, Need, Pages;
      ptr, n := 0, 0;
      if size == 0 {
        return;
      }
      NeedEnough(size);
      var need := Need(size);
      var b;
      b, n := Fit(need);
      ghost var mid := blocks;
      if b == 0 {
        var e := Expand(need, grant);
        if e == 0 {
          return;
        }
        // the expansion holds the request: the second search cannot fail
        mid := blocks;
        b, n := Fit(need);
        AddedAfter(old(blocks), mid, blocks, b, n);
      }
      LiveTop(blocks, b, n);
      ptr := b + HEADER;
    }

    /** Joins block `b` with the block behind it in the list. */
    method Join(b: nat, ghost k: nat)
      requires Tidy(blocks) && Linked(hdr, head, blocks) && k + 1 < |blocks| && b == blocks[k].addr && Touch(blocks[k], blocks[k + 1])
      modifies this`hdr, this`blocks
      ensures blocks == MergeAt(old(blocks), k) && Tidy(blocks) && Linked(hdr, head, blocks) && Total(blocks) == Total(old(blocks))
    {
      hide Tidy, Linked, Total, MergeAt;
      ghost var h0 := hdr;
      MergeLinked(hdr, head, blocks, k);
      MergeTidy(blocks, k);
      MergeTotal(blocks, k);
      NextLinked(hdr, head, blocks, k);
      NextLinked(hdr, head, blocks, k + 1);
      Differ(blocks, k, k + 1);
      AfterDiffers(blocks, k);
      hdr := hdr[b := hdr[b].(size := hdr[b].size + hdr[hdr[b].next].size)];
      hdr := hdr[b := hdr[b].(next := hdr[hdr[b].next].next)];
      if hdr[b].next != 0 {
        hdr := hdr[hdr[b].next := hdr[hdr[b].next].(prev := b)];
      }
      assert hdr == MergeHdr(h0, b);
      blocks := MergeAt(blocks, k);
    }

    /** Gives a block back and joins it with free neighbours it touches. */
    method Free(ptr: nat)
      requires Valid()
      requires ptr != 0 ==> ptr >= HEADER && Used(blocks, ptr - HEADER)
      modifies this`hdr, this`blocks
      ensures Valid()
      ensures if ptr == 0 then blocks == old(blocks) else Removed(old(blocks), blocks, ptr - HEADER)
    {
      if ptr == 0 {
        return;
      }
      var b := ptr - HEADER;
      ghost var n :| Live(blocks, b, n);
      ghost var k :| 0 <= k < |blocks| && blocks[k] == Blk(b, n, false);
      hide Tidy, Merged, Linked, Total, Live, MergeAt;
      ghost var bs := blocks;
      MarkTidy(bs, k, true);
      MarkTotal(bs, k, true);
      FreedMerged(bs, k);
      GiveLive(bs, k);
      TidyDistinct(bs);
      UpdateLinked(hdr, head, bs, k, bs[k].(free := true));
      hdr := hdr[b := hdr[b].(free := true)];
      blocks := Marked(bs, k, true);
      JoinNext(b, k, bs);
      JoinPrev(b, k, bs);
    }

    /** The first half of the merging: with the block behind. */
    method JoinNext(b: nat, ghost k: nat, ghost was: seq<Blk>)
      requires Tidy(blocks) && Linked(hdr, head, blocks) && k < |blocks| && b == blocks[k].addr && blocks[k].free
      requires MergedBut(blocks, k - 1, k + 1) && Removed(was, blocks, b)
      modifies this`hdr, this`blocks
      ensures Tidy(blocks) && Linked(hdr, head, blocks) && k < |blocks| && b == blocks[k].addr && blocks[k].free
      ensures MergedBut(blocks, k - 1, k) && Removed(was, blocks, b) && Total(blocks) == Total(old(blocks))
    {
      hide Tidy, Linked, Total, Live, MergeAt, MergedBut, Removed;
      ghost var bs := blocks;
      NextLinked(hdr, head, bs, k);
      if k + 1 < |bs| {
        NextLinked(hdr, head, bs, k + 1);
      }
      var next := hdr[b].next;
      if next != 0 && hdr[next].free && b + hdr[b].size == next {
        NextMerged(bs, k);
        MergeLive(bs, k);
        MergeElems(bs, k);
        RemovedThen(was, bs, MergeAt(bs, k), b);
        Join(b, k);
      } else {
        NextApart(hdr, head, bs, k);
      }
    }

    /** The second half: the block before takes over the freed one. */
    method JoinPrev(b: nat, ghost k: nat, ghost was: seq<Blk>)
      requires Tidy(blocks) && Linked(hdr, head, blocks) && k < |blocks| && b == blocks[k].addr && blocks[k].free
      requires MergedBut(blocks, k - 1, k) && Removed(was, blocks, b)
      modifies this`hdr, this`blocks
      ensures Tidy(blocks) && Linked(hdr, head, blocks) && Merged(blocks)
      ensures Removed(was, blocks, b) && Total(blocks) == Total(old(blocks))
    {
      hide Tidy, Linked, Total, Live, MergeAt, MergedBut, Removed, Merged;
      ghost var bs := blocks;
      NextLinked(hdr, head, bs, k);
      PrevLinked(hdr, head, bs, k);
      var prev := hdr[b].prev;
      if prev != 0 && hdr[prev].free && prev + hdr[prev].size == b {
        PrevMerged(bs, k - 1);
        MergeLive(bs, k - 1);
        RemovedThen(was, bs, MergeAt(bs, k - 1), b);
        Join(prev, k - 1);
      } else {
        PrevApart(bs, k);
      }
    }

    /** A byte-by-byte copy between places that do not overlap. */
    method Memcpy(dst: nat, src: nat, n: nat)
      requires dst + n <= src || src + n <= dst
      modifies this`mem
      ensures Copied(old(mem), mem, src, dst, n)
      ensures forall a: nat :: a < dst || dst + n <= a ==> Byte(mem, a) == Byte(old(mem), a)
    {
      for k := 0 to n
        invariant Copied(old(mem), mem, src, dst, k)
        invariant forall a: nat :: a < dst || dst + k <= a ==> Byte(mem, a) == Byte(old(mem), a)
      {
        ghost var was := mem;
        mem := mem[dst + k := Byte(mem, src + k)];
        forall i: nat | i < k + 1 ensures CopiedAt(old(mem), mem, src, dst, i) {
          assert i < k ==> CopiedAt(old(mem), was, src, dst, i);
        }
      }
    }

    /** The parts of `realloc` that leave the block where it is. */
    method GrowInPlace(b: nat, newSize: nat, ghost size: nat) returns (ok: bool, ghost n: nat)
      requires Valid() && 0 < newSize < WORD && Live(blocks, b, size)
      modifies this`hdr, this`blocks
      ensures Valid()
      ensures ok ==> Replaced(old(blocks), blocks, b, b, n) && n >= size && (newSize + HEADER <= n <==> newSize <= WORD - 48)
      ensures !ok ==> blocks == old(blocks) && newSize <= WORD - 48
      ensures var total := AlignUp((newSize + HEADER) % WORD);
        && (ok <==> size >= total || CanGrow(old(blocks), b, size, total))
        && (size >= total ==> blocks == old(blocks))
    {
      LiveTop(blocks, b, size);
      ghost var k :| 0 <= k < |blocks| && blocks[k] == Blk(b, size, false);
      assert Sound(blocks[k]);
      ghost var bs := blocks;
      KeptLive(bs, b, size);
      NeedEnough(newSize);
      GrowsHere(bs, k, b, size, AlignUp((newSize + HEADER) % WORD));
      hide Tidy, CanGrow, Merged, Linked, Total, Live, MergeAt, Need, AlignUp;
      NextLinked(hdr, head, bs, k);
      var total := AlignUp((newSize + HEADER) % WORD);
      if hdr[b].size >= total {
        return true, size;
      }
      var next := hdr[b].next;
      if next != 0 && hdr[next].free && b + hdr[b].size == next {
        var combined := hdr[b].size + hdr[next].size;
        if combined >= total {
          NextLinked(hdr, head, bs, k + 1);
          AbsorbLive(bs, k);
          AbsorbMerged(bs, k);
          n := bs[k].size + bs[k + 1].size;
          Join(b, k);
          MergeElems(bs, k);
          return true, n;
        }
      }
      ok, n := false, 0;
    }

    /** The last resort of `realloc`: a new block, the common bytes copied, the old block freed. */
    method MoveAway(b: nat, newSize: nat, grant: nat, ghost size: nat) returns (r: nat, ghost n: nat)
      requires Valid() && 0 < newSize <= WORD - 48 && Live(blocks, b, size)
      requires grant > 0 && Pages(Need(newSize)) > 0 ==> Granted(blocks, Blk(grant, Pages(Need(newSize)) * 4096, true))
      modifies this
      ensures Valid()
      ensures r == 0 ==> blocks == old(blocks) && mem == old(mem) && (grant == 0 || Pages(Need(newSize)) == 0)
      ensures r != 0 ==> r > HEADER && Replaced(old(blocks), blocks, b, r - HEADER, n) && newSize + HEADER <= n
      ensures r != 0 ==> Copied(old(mem), mem, b + HEADER, r, if size - HEADER < newSize then size - HEADER else newSize)
      ensures OthersKept(old(blocks), old(mem), mem, b)
    {
      hide Tidy, Merged, Linked, Total, Live, Need, Pages;
      r, n := Malloc(newSize, grant);
      if r == 0 {
        return;
      }
      ghost var mid := blocks;
      var c := r - HEADER;
      assert Live(mid, b, size) && Live(mid, c, n) && b != c;
      LiveApart(mid, b, size, c, n);
      SizeOf(hdr, head, mid, b, size);
      var copy := if hdr[b].size - HEADER > newSize then newSize else hdr[b].size - HEADER;
      Memcpy(r, b + HEADER, copy);
      forall x: nat, s: nat, i: nat | Live(old(blocks), x, s) && x != b && x + HEADER <= i < x + s
        ensures Byte(mem, i) == Byte(old(mem), i)
      {
        LiveApart(mid, x, s, c, n);
      }
      assert Used(mid, b);
      Free(b + HEADER);
      ReplacedBy(old(blocks), mid, blocks, b, c, n);
    }

    /**
     Keeps the block, grows it into a free neighbour, or moves it; the bytes both sizes have in
     common stay, and so does every other block in use.
     */
    method Realloc(ptr: nat, newSize: nat, grant: nat, ghost size: nat) returns (r: nat, ghost n: nat)
      requires Valid() && newSize < WORD
      requires ptr != 0 ==> ptr >= HEADER && Live(blocks, ptr - HEADER, size)
      requires grant > 0 && Pages(Need(newSize)) > 0 ==> Granted(blocks, Blk(grant, Pages(Need(newSize)) * 4096, true))
      modifies this
      ensures Valid()
      ensures ptr != 0 && newSize == 0 ==> r == 0 && Removed(old(blocks), blocks, ptr - HEADER)
      ensures newSize > 0 && r == 0 ==> blocks == old(blocks) && mem == old(mem) && (grant == 0 || Pages(Need(newSize)) == 0)
      ensures ptr != 0 && newSize > 0 ==>
                var total := AlignUp((newSize + HEADER) % WORD);
                && (size >= total || CanGrow(old(blocks), ptr - HEADER, size, total) ==> r == ptr && mem == old(mem))
                && (size >= total ==> blocks == old(blocks))
      ensures ptr == 0 && r != 0 ==> r > HEADER && Added(old(blocks), blocks, r - HEADER, n)
      ensures ptr != 0 && r != 0 ==> r > HEADER && Replaced(old(blocks), blocks, ptr - HEADER, r - HEADER, n)
      ensures r != 0 ==> (newSize + HEADER <= n <==> newSize <= WORD - 48)
      ensures ptr != 0 && r != 0 ==> Copied(old(mem), mem, ptr, r, if size - HEADER < newSize then size - HEADER else newSize)
      ensures ptr != 0 ==> OthersKept(old(blocks), old(mem), mem, ptr - HEADER)
      ensures ptr == 0 ==> mem == old(mem)
    {
      n := 0;
      if ptr == 0 {
        r, n := Malloc(newSize, grant);
        return;
      }
      if newSize == 0 {
        assert Used(blocks, ptr - HEADER);
        Free(ptr);
        return 0, 0;
      }
      var b := ptr - HEADER;
      var ok;
      ok, n := GrowInPlace(b, newSize, size);
      if ok {
        return ptr, n;
      }
      r, n := MoveAway(b, newSize, grant, size);
    }
  }
}
