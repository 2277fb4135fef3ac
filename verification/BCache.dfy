/**
 The block cache itself: entries, LRU links and hash chains changed in place, each public call one
 lock section. Device requests are taken to succeed.
 */
module BCache {
  import opened CacheModel

  class BCache<D(==)> {
    const cache: array<Entry<D>>
    const table: array<int>
    var lruHead: int
    var lruTail: int
    var disk: seq<D>
    var hits: nat
    var misses: nat
    ghost var order: seq<nat>
    ghost var chains: seq<seq<nat>>
    ghost var logical: seq<D>

    ghost predicate Shape()
      reads this, cache, table
    {
      cache.Length == ENTRIES && table.Length == BUCKETS
    }

    ghost predicate Lru()
      reads this, cache
    {
      Linked(cache[..], order, lruHead, lruTail)
    }

    /** The LRU list is a permutation of all entries and the chains hold exactly the valid ones. */
    ghost predicate Valid()
      reads this, cache, table
    {
      && Shape() && Lru() && Full(order, ENTRIES)
      && Chains(cache[..], chains, table[..]) && Hashed(cache[..], chains, -1)
      && OneEach(cache[..]) && Coherent(cache[..], disk, logical)
    }

    /** The head of the LRU list holds block `b`. */
    ghost predicate MostRecent(b: nat)
      reads this, cache
    {
      |order| > 0 && order[0] < cache.Length && cache[order[0]].valid && cache[order[0]].tag == b
    }

    ghost function Now(): Snap<D>
      reads this, cache
    {
      Snap(cache[..], disk, logical)
    }

    /** An empty cache over a disk: every entry free, every bucket empty. */
    constructor (disk0: seq<D>, blank: D)
      ensures Valid() && disk == logical == disk0 && fresh(cache) && fresh(table)
    {
      cache := new Entry<D>[ENTRIES](_ => Entry(blank, 0, false, false, -1, -1, -1));
      table := new int[BUCKETS](_ => -1);
      lruHead, lruTail := -1, -1;
      disk, logical := disk0, disk0;
      hits, misses := 0, 0;
      order := [];
      chains := seq(BUCKETS, _ => []);
      new;
      for i := 0 to ENTRIES
        invariant Lru() && Blank(cache[..]) && Full(order, i) && (forall x :: x in order ==> x < i)
        invariant fresh(cache) && fresh(table) && disk == logical == disk0
        invariant chains == seq(BUCKETS, _ => []) && forall b :: 0 <= b < BUCKETS ==> table[b] == -1
        modifies this`lruHead, this`lruTail, this`order, cache
      {
        hide Linked;
        ghost var was := order;
        DllPushHead(i);
        assert i == order[0];
        assert forall x :: x in was ==> x in order;
      }
      hide Linked;
      BlankCache(cache[..], chains, table[..], disk);
    }

    method DllUnlink(idx: nat) returns (ghost k: nat)
      requires Shape() && Lru() && idx in order
      modifies this`lruHead, this`lruTail, this`order, cache
      ensures Lru() && SameBody(old(cache[..]), cache[..])
      ensures k < |old(order)| && old(order)[k] == idx && order == Without(old(order), k)
      ensures idx !in order && forall x :: x in old(order) <==> x == idx || x in order
    {
      k :| 0 <= k < |order| && order[k] == idx;
      ghost var es := cache[..];
      UnlinkLinks(es, order, lruHead, lruTail, k);
      WithoutDistinct(order, k);
      hide Linked, LinkAt, Distinct, Without, SameBody;
      var e := cache[idx];
      if e.prev >= 0 {
        cache[e.prev] := cache[e.prev].(next := e.next);
      } else {
        lruHead := e.next;
      }
      if e.next >= 0 {
        cache[e.next] := cache[e.next].(prev := e.prev);
      } else {
        lruTail := e.prev;
      }
      cache[idx] := cache[idx].(prev := -1, next := -1);
      assert cache[..] == Unlinked(es, idx);
      order := Without(order, k);
    }

    method DllPushHead(idx: nat)
      requires Shape() && Lru() && idx < ENTRIES && idx !in order
      modifies this`lruHead, this`lruTail, this`order, cache
      ensures Lru() && SameBody(old(cache[..]), cache[..])
      ensures order == [idx] + old(order)
    {
      ghost var es, head := cache[..], lruHead;
      PushHeadLinks(es, order, lruHead, lruTail, idx);
      hide LinkAt, Distinct, SameBody;
      cache[idx] := cache[idx].(prev := -1, next := lruHead);
      if lruHead >= 0 {
        cache[lruHead] := cache[lruHead].(prev := idx);
      }
      lruHead := idx;
      if lruTail < 0 {
        lruTail := idx;
      }
      assert cache[..] == PushedHead(es, idx, head);
      order := [idx] + order;
    }

    /** Unlinking an entry and pushing it at the head again. */
    method Promote(idx: nat)
      requires Shape() && Lru() && Full(order, ENTRIES) && idx < ENTRIES
      modifies this`lruHead, this`lruTail, this`order, cache
      ensures Lru() && Full(order, ENTRIES) && SameBody(old(cache[..]), cache[..])
      ensures MovedFront(old(order), order) && order[0] == idx
    {
      hide Linked;
      ghost var k := DllUnlink(idx);
      DllPushHead(idx);
    }

    method HashFind(b: nat) returns (idx: int)
      requires Shape() && Chains(cache[..], chains, table[..]) && Hashed(cache[..], chains, -1)
      ensures idx >= 0 ==> idx < ENTRIES && cache[idx].valid && cache[idx].tag == b
      ensures idx < 0 ==> !Cached(cache[..], b)
    {
      ghost var c := chains[Bucket(b)];
      idx := table[Bucket(b)];
      assert Chain(cache[..], c, table[Bucket(b)]);
      ghost var k := 0;
      while idx >= 0
        invariant 0 <= k <= |c| && idx == At(c, k)
        invariant forall j :: 0 <= j < k ==> !(cache[c[j]].valid && cache[c[j]].tag == b)
        decreases |c| - k
      {
        if cache[idx].valid && cache[idx].tag == b {
          return;
        }
        assert cache[..][c[k]].hashNext == At(c, k + 1);
        idx := cache[idx].hashNext;
        k := k + 1;
      }
      forall i | 0 <= i < ENTRIES && cache[i].valid ensures cache[i].tag != b {
        assert Belongs(cache[..], -1, Bucket(cache[i].tag), i);
      }
    }

    method HashInsert(idx: nat)
      requires Shape() && Chains(cache[..], chains, table[..]) && Hashed(cache[..], chains, idx)
      requires idx < ENTRIES && cache[idx].valid
      modifies this`chains, cache, table
      ensures Chains(cache[..], chains, table[..]) && Hashed(cache[..], chains, -1)
      ensures cache[..] == old(cache[..])[idx := old(cache[idx]).(hashNext := cache[idx].hashNext)]
    {
      hide Chain, Hashed, Bucket;
      ghost var es, tb := cache[..], table[..];
      var b := Bucket(cache[idx].tag);
      InsertHash(es, chains, tb, idx, b);
      cache[idx] := cache[idx].(hashNext := table[b]);
      table[b] := idx;
      assert cache[..] == es[idx := es[idx].(hashNext := tb[b])] && table[..] == tb[b := idx];
      chains := chains[b := [idx] + chains[b]];
    }

    method HashRemove(idx: nat)
      requires Shape() && Chains(cache[..], chains, table[..]) && Hashed(cache[..], chains, -1)
      requires idx < ENTRIES && cache[idx].valid
      modifies this`chains, cache, table
      ensures Chains(cache[..], chains, table[..]) && Hashed(cache[..], chains, idx)
      ensures SameLinks(old(cache[..]), cache[..])
    {
      var b := Bucket(cache[idx].tag);
      ghost var es, tb, c := cache[..], table[..], chains[b];
      assert Belongs(es, -1, b, idx) && Chain(es, c, tb[b]);
      ghost var k :| 0 <= k < |c| && c[k] == idx;
      RemoveHash(es, chains, tb, b, k);
      hide Hashed, Chains, Bucket;
      if table[b] == idx {
        assert k == 0;
        table[b] := cache[idx].hashNext;
      } else {
        var prev := table[b];
        ghost var m := 0;
        assert k > 0;
        while prev >= 0 && cache[prev].hashNext != idx
          invariant 0 <= m < k && prev == c[m]
          decreases k - m
        {
          assert es[c[m]].hashNext == At(c, m + 1);
          m := m + 1;
          prev := cache[prev].hashNext;
        }
        assert es[c[m]].hashNext == At(c, m + 1);
        if prev >= 0 {
          cache[prev] := cache[prev].(hashNext := cache[idx].hashNext);
        }
      }
      cache[idx] := cache[idx].(hashNext := -1);
      assert cache[..] == Unhashed(es, c, k);
      assert table[..] == tb[b := if k == 0 then es[idx].hashNext else tb[b]];
      chains := chains[b := Without(c, k)];
    }

    method WritebackEntry(idx: nat)
      requires Shape() && idx < ENTRIES && OneEach(cache[..]) && Coherent(cache[..], disk, logical)
      modifies this`disk, cache
      ensures OneEach(cache[..]) && Coherent(cache[..], disk, logical)
      ensures FlushStep(old(Now()), Now(), idx)
    {
      hide OneEach, Coherent;
      ghost var es := cache[..];
      var e := cache[idx];
      if !e.valid || !e.dirty {
        return;
      }
      WriteBackCoherent(es, disk, logical, idx);
      disk := disk[e.tag := e.data];
      cache[idx] := cache[idx].(dirty := false);
      assert cache[..] == es[idx := es[idx].(dirty := false)];
    }

    /** Chooses the least recently used entry, writes it back if dirty and takes it out of its chain. */
    method Evict() returns (victim: nat, ghost mid: seq<Entry<D>>)
      requires Valid()
      modifies this`disk, this`chains, cache, table
      ensures Shape() && Lru() && victim < ENTRIES && |order| > 0 && victim == order[|order| - 1]
      ensures Chains(cache[..], chains, table[..]) && Hashed(cache[..], chains, victim)
      ensures OneEach(cache[..]) && Coherent(cache[..], disk, logical) && !Dirty(cache[victim])
      ensures FlushStep(old(Now()), Snap(mid, disk, logical), victim) && SameLinks(mid, cache[..])
    {
      ListEnds(cache[..], order, lruHead, lruTail);
      assert 0 in order;
      assert lruTail == At(order, |order| - 1) && Inside(order, ENTRIES);
      hide Linked, Chains, Hashed, OneEach, Coherent;
      victim := lruTail;
      ghost var es := cache[..];
      if cache[victim].valid && cache[victim].dirty {
        WritebackEntry(victim);
        ContentsFrame(es, chains, table[..], -1, victim, cache[victim]);
        LruFrame(es, cache[..], order, lruHead, lruTail);
      }
      mid := cache[..];
      if cache[victim].valid {
        HashRemove(victim);
        LruFrame(mid, cache[..], order, lruHead, lruTail);
        CoherentFrame(mid, cache[..], disk, logical);
      } else {
        HashedWithout(mid, chains, -1, victim);
      }
    }

    /** Gives the evicted entry to block `b`, hashes it and makes it most recently used. */
    method Install(victim: nat, b: nat, d: D, dirty: bool)
      requires Shape() && Lru() && Full(order, ENTRIES) && victim < ENTRIES
      requires Chains(cache[..], chains, table[..]) && Hashed(cache[..], chains, victim)
      requires OneEach(cache[..]) && Coherent(cache[..], disk, logical) && !Dirty(cache[victim])
      requires !Cached(cache[..], b) && b < |disk| && (!dirty ==> d == disk[b])
      modifies this`lruHead, this`lruTail, this`order, this`chains, this`logical, cache, table
      ensures Valid() && logical == old(logical)[b := d] && MovedFront(old(order), order) && order[0] == victim
      ensures SameData(old(cache[..])[victim := old(cache[victim]).(data := d, tag := b, valid := true, dirty := dirty)], cache[..])
    {
      assert |logical| == |disk|;
      hide Linked, Chains, Hashed, OneEach, Coherent, Full, Cached;
      ghost var es := cache[..];
      cache[victim] := cache[victim].(data := d, tag := b, valid := true, dirty := dirty);
      ghost var es1 := cache[..];
      assert es1 == es[victim := cache[victim]];
      InstallCoherent(es, disk, logical, victim, b, cache[victim]);
      ContentsFrame(es, chains, table[..], victim, victim, cache[victim]);
      LruFrame(es, es1, order, lruHead, lruTail);
      logical := logical[b := d];
      HashInsert(victim);
      ghost var es2 := cache[..];
      LruFrame(es1, es2, order, lruHead, lruTail);
      CoherentFrame(es1, es2, disk, logical);
      Promote(victim);
      BodyFrame(es2, cache[..], chains, table[..], -1);
      CoherentFrame(es2, cache[..], disk, logical);
    }

    /** Returns the value of the block as last written, or as first found on disk. */
    method Read(b: nat) returns (r: D)
      requires Valid() && b < |disk|
      modifies this, cache, table
      ensures Valid() && r == old(logical)[b] && logical == old(logical)
      ensures Honest(old(Now()), Now())
      ensures MostRecent(b) && MovedFront(old(order), order)
      ensures hits + misses == old(hits) + old(misses) + 1
      ensures misses == old(misses) || (|old(order)| > 0 && order[0] == old(order)[|old(order)| - 1])
      ensures Cached(old(cache[..]), b) <==> misses == old(misses)
      ensures Cached(old(cache[..]), b) ==> disk == old(disk)
    {
      hide Linked, Chains, Hashed, Full, LinkAt;
      ghost var s := Now();
      var idx := HashFind(b);
      if idx >= 0 {
        hits := hits + 1;
        Promote(idx);
        BodyFrame(s.es, cache[..], chains, table[..], -1);
        CoherentFrame(s.es, cache[..], disk, logical);
        r := cache[idx].data;
        assert EntryOk(cache[..][idx], disk, logical);
        HonestStep(s, Now(), idx);
        return;
      }
      misses := misses + 1;
      ghost var mid;
      var victim;
      victim, mid := Evict();
      EvictedMiss(s, Snap(mid, disk, logical), cache[..], victim, b);
      r := disk[b];
      Install(victim, b, r, false);
      HonestMiss(s, Snap(mid, disk, logical), Now(), victim);
    }

    /** The block now reads as `d`; nothing is written to disk unless a dirty entry is evicted. */
    method Write(b: nat, d: D)
      requires Valid() && b < |disk|
      modifies this, cache, table
      ensures Valid() && logical == old(logical)[b := d]
      ensures Honest(old(Now()), Now())
      ensures MostRecent(b) && MovedFront(old(order), order)
      ensures Cached(old(cache[..]), b) ==> disk == old(disk)
    {
      hide Linked, Chains, Hashed, Full, LinkAt;
      ghost var s := Now();
      var idx := HashFind(b);
      if idx >= 0 {
        cache[idx] := cache[idx].(data := d, dirty := true);
        ghost var es1 := cache[..];
        assert es1 == s.es[idx := s.es[idx].(data := d, dirty := true)];
        RewriteCoherent(s.es, disk, logical, idx, d);
        ContentsFrame(s.es, chains, table[..], -1, idx, cache[idx]);
        LruFrame(s.es, es1, order, lruHead, lruTail);
        logical := logical[b := d];
        Promote(idx);
        BodyFrame(es1, cache[..], chains, table[..], -1);
        CoherentFrame(es1, cache[..], disk, logical);
        HonestStep(s, Now(), idx);
      } else {
        ghost var mid;
        var victim;
        victim, mid := Evict();
        EvictedMiss(s, Snap(mid, disk, logical), cache[..], victim, b);
        Install(victim, b, d, true);
        HonestMiss(s, Snap(mid, disk, old(logical)), Now(), victim);
      }
    }

    /** Takes an entry out of the LRU list and puts it at the tail. */
    method Demote(idx: nat)
      requires Shape() && Lru() && Full(order, ENTRIES) && idx < ENTRIES
      modifies this`lruHead, this`lruTail, this`order, cache
      ensures Lru() && Full(order, ENTRIES) && SameBody(old(cache[..]), cache[..])
      ensures |order| > 0 && order[|order| - 1] == idx
    {
      hide Linked, LinkAt, Distinct;
      ghost var k := DllUnlink(idx);
      ghost var es, tail := cache[..], lruTail;
      PushTailLinks(es, order, lruHead, lruTail, idx);
      ListEnds(es, order, lruHead, lruTail);
      cache[idx] := cache[idx].(next := -1, prev := lruTail);
      if lruTail >= 0 {
        cache[lruTail] := cache[lruTail].(next := idx);
      }
      lruTail := idx;
      if lruHead < 0 {
        lruHead := idx;
      }
      assert cache[..] == PushedTail(es, idx, tail);
      order := order + [idx];
    }

    /** Writes the block back if dirty and forgets its entry; callers see no change. */
    method Invalidate(b: nat)
      requires Valid() && b < |disk|
      modifies this, cache, table
      ensures Valid() && logical == old(logical) && !Cached(cache[..], b) && disk[b] == logical[b]
      ensures Honest(old(Now()), Now())
    {
      hide Linked, Chains, Hashed, Full, LinkAt;
      ghost var s := Now();
      var idx := HashFind(b);
      if idx >= 0 {
        if cache[idx].dirty {
          WritebackEntry(idx);
          ContentsFrame(s.es, chains, table[..], -1, idx, cache[idx]);
          LruFrame(s.es, cache[..], order, lruHead, lruTail);
        }
        ghost var t := Now();
        assert FlushStep(s, t, idx);
        HashRemove(idx);
        ghost var es1 := cache[..];
        LruFrame(t.es, es1, order, lruHead, lruTail);
        CoherentFrame(t.es, es1, disk, logical);
        cache[idx] := cache[idx].(valid := false, dirty := false);
        ghost var es2 := cache[..];
        assert es2 == es1[idx := es1[idx].(valid := false, dirty := false)];
        DropCoherent(es1, disk, logical, idx);
        ContentsFrame(es1, chains, table[..], idx, idx, cache[idx]);
        HashedWithout(es2, chains, idx, idx);
        LruFrame(es1, es2, order, lruHead, lruTail);
        Demote(idx);
        BodyFrame(es2, cache[..], chains, table[..], -1);
        CoherentFrame(es2, cache[..], disk, logical);
        HonestMiss(s, t, Now(), idx);
      }
    }

    /** One lock section of a flush. */
    method FlushEntry(i: nat)
      requires Valid() && i < ENTRIES
      modifies this`disk, cache
      ensures Valid() && logical == old(logical) && FlushStep(old(Now()), Now(), i)
      ensures Honest(old(Now()), Now())
    {
      hide Linked, Chains, Hashed, Full, LinkAt;
      ghost var s := Now();
      if cache[i].valid && cache[i].dirty {
        WritebackEntry(i);
        ContentsFrame(s.es, chains, table[..], -1, i, cache[i]);
        LruFrame(s.es, cache[..], order, lruHead, lruTail);
      }
      FlushHonest(s, Now(), i);
    }

    /** With no other call in between, a flush brings the whole disk up to date. */
    method Flush()
      requires Valid()
      modifies this`disk, cache
      ensures Valid() && logical == old(logical) && disk == logical
    {
      hide Linked, Chains, Hashed, Full, LinkAt;
      for i := 0 to ENTRIES
        invariant Valid() && logical == old(logical)
        invariant forall j :: 0 <= j < i ==> !Dirty(cache[j])
      {
        FlushEntry(i);
      }
      CleanIsDisk(cache[..], disk, logical);
    }

    /** One section of a schedule; `n` lock sections of the watched flush are done. */
    method RunSection(s: Section<D>, n: nat) returns (done: bool)
      requires Valid() && InReach(s, |disk|) && n <= ENTRIES
      modifies this, cache, table
      ensures Valid() && |disk| == |old(disk)| && Honest(old(Now()), Now())
      ensures done <==> s.Own? && n < ENTRIES
      ensures done ==> FlushStep(old(Now()), Now(), n)
    {
      hide Linked, Chains, Hashed, Full, LinkAt, OneEach, MovedFront, FlushStep, Honest;
      done := s.Own? && n < ENTRIES;
      match s
      case Own =>
        if done { FlushEntry(n); } else { StillHonest(Now()); }
      case Other(i) => FlushEntry(i);
      case Call(op) =>
        match op
        case Read(b) => var r := Read(b);
        case Write(b, d) => Write(b, d);
        case Invalidate(b) => Invalidate(b);
    }

    /**
     A flush whose lock sections run among any other calls and other flushes: once it is through,
     every block on disk holds a value that callers saw at or after the moment it began.
     */
    method FlushAmong(sched: seq<Section<D>>) returns (ghost tr: seq<Snap<D>>, ghost f: seq<nat>)
      requires Valid() && forall i :: 0 <= i < |sched| ==> InReach(sched[i], |disk|)
      modifies this, cache, table
      ensures Valid() && |disk| == |old(disk)| && |tr| == |sched| + 1 && tr[0] == old(Now()) && tr[|sched|] == Now()
      ensures Trace(tr) && FlushPart(tr, f)
      ensures |f| == ENTRIES ==> forall b :: 0 <= b < |disk| ==> Durable(tr, f[0], disk, b)
    {
      hide Linked, Chains, Hashed, Full, LinkAt, FlushStep, Honest, FlushPart, Trace, Durable;
      tr, f := [Now()], [];
      StartTrace(Now());
      var n := 0;
      for i := 0 to |sched|
        invariant Valid() && |disk| == |old(disk)| && |tr| == i + 1 && tr[0] == old(Now()) && tr[i] == Now()
        invariant Trace(tr) && FlushPart(tr, f) && n == |f| <= ENTRIES
        invariant forall t :: 0 <= t < |tr| ==> |tr[t].disk| == |disk|
      {
        var done := RunSection(sched[i], n);
        TraceNext(tr, Now());
        if done {
          PartNext(tr, f, Now());
          f := f + [i];
          n := n + 1;
        } else {
          PartKept(tr, f, Now());
        }
        tr := tr + [Now()];
      }
      if |f| == ENTRIES {
        forall b | 0 <= b < |disk| ensures Durable(tr, f[0], disk, b) {
          PartInside(tr, f);
          PartDurable(tr, f, b);
        }
      }
    }

    method Apply(op: Op<D>, ghost m: seq<D>) returns (r: D)
      requires Valid() && |disk| > 0 && (op.Flush? || op.b < |disk|) && logical == m
      modifies this, cache, table
      ensures Valid() && logical == Effect(m, op) && |disk| == |m|
      ensures op.Read? ==> r == m[op.b]
    {
      hide Linked, Chains, Hashed, Full, LinkAt, OneEach, MovedFront;
      r := disk[0];
      match op
      case Read(b) => r := Read(b);
      case Write(b, d) => Write(b, d);
      case Invalidate(b) => Invalidate(b);
      case Flush => Flush();
    }

    /**
     Over every sequence of calls, reads return the last value written before them, else the
     initial disk value, and the cache stays consistent.
     */
    method Run(ops: seq<Op<D>>) returns (out: seq<D>)
      requires Valid() && |disk| > 0 && forall t :: 0 <= t < |ops| ==> ops[t].Flush? || ops[t].b < |disk|
      modifies this, cache, table
      ensures Valid() && logical == After(old(logical), ops) && |out| == |ops|
      ensures forall t :: 0 <= t < |ops| && ops[t].Read? ==> out[t] == After(old(logical), ops[..t])[ops[t].b]
    {
      out := [];
      for i := 0 to |ops|
        invariant Valid() && logical == After(old(logical), ops[..i]) && |out| == i && |disk| == |old(disk)|
        invariant forall t :: 0 <= t < i && ops[t].Read? ==> out[t] == After(old(logical), ops[..t])[ops[t].b]
      {
        hide Linked, Chains, Hashed, Full, LinkAt, OneEach;
        assert ops[..i + 1][..i] == ops[..i];
        var d := Apply(ops[i], logical);
        out := out + [d];
      }
      assert ops[..|ops|] == ops;
    }
  }
}
