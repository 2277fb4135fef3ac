/**
 The vocabulary index: an open-addressing table from token strings to token ids, filled and searched
 by linear probing. A lookup gives what a scan of the whole vocabulary from id 0 would give.
 */
module Vocab {

  datatype Option<+T> = None | Some(value: T)

  const SIZE: nat := 262144
  const EMPTY: nat := 0xFFFF_FFFF

  type Bytes = s: seq<nat> | forall i :: 0 <= i < |s| ==> s[i] < 256

  /** The vocabulary: an id without a string is skipped. */
  type Words = seq<Option<Bytes>>

  // ---- Hash and comparison ----

  function Xor(h: nat, b: nat): nat
    requires h < 0x1_0000_0000 && b < 256
  {
    ((h as bv32) ^ (b as bv32)) as nat
  }

  /** FNV-1a over the first `n` bytes, in 32 bits. */
  function Fnv(s: Bytes, n: nat): (h: nat)
    requires n <= |s|
    ensures h < 0x1_0000_0000
  {
    if n == 0 then 2166136261 else Xor(Fnv(s, n - 1), s[n - 1]) * 16777619 % 0x1_0000_0000
  }

  /** The slot where probing starts; the table size is a power of two, so the mask is a remainder. */
  function Home(s: Bytes): (h: nat)
    ensures h < SIZE
  {
    Fnv(s, |s|) % SIZE
  }

  /** The slot reached after `d` steps. */
  function Probe(h: nat, d: nat): (i: nat)
    ensures i < SIZE
  {
    (h + d) % SIZE
  }

  method Hash(s: Bytes) returns (h: nat)
    ensures h == Home(s)
  {
    h := 2166136261;
    for j := 0 to |s|
      invariant h == Fnv(s, j)
    {
      h := Xor(h, s[j]) * 16777619 % 0x1_0000_0000;
    }
    h := h % SIZE;
  }

  /** `strncmp(a, b, n) == 0`: equal up to `n` bytes or a common zero byte. */
  predicate SamePrefix(a: Bytes, b: Bytes, n: nat)
    requires n <= |a| && n <= |b|
    decreases n
  {
    n == 0 || (a[0] == b[0] && (a[0] == 0 || SamePrefix(a[1..], b[1..], n - 1)))
  }

  /** No zero byte before the last position. */
  predicate ZeroLast(a: Bytes) {
    forall i :: 0 <= i < |a| - 1 ==> a[i] != 0
  }

  lemma {:induction false} SamePrefixIs(a: Bytes, b: Bytes)
    requires |a| == |b| && ZeroLast(a)
    ensures SamePrefix(a, b, |a|) <==> a == b
    decreases |a|
  {
    if |a| > 0 {
      SamePrefixIs(a[1..], b[1..]);
      assert a == [a[0]] + a[1..] && b == [b[0]] + b[1..];
      assert a[0] == 0 ==> a[1..] == b[1..] == [];
    }
  }

  /** The comparison stops at a common zero byte. */
  lemma {:induction false} StopsAtZero(a: Bytes, b: Bytes, i: nat)
    requires |a| == |b| && i < |a| && a[i] == 0 && a[..i + 1] == b[..i + 1]
    ensures SamePrefix(a, b, |a|)
    decreases i
  {
    assert a[0] == a[..i + 1][0] && b[0] == b[..i + 1][0];
    if i > 0 {
      assert a[1..][..i] == a[..i + 1][1..] && b[1..][..i] == b[..i + 1][1..];
      StopsAtZero(a[1..], b[1..], i - 1);
    }
  }

  /** Comparing a stored string with strings of its length is equality exactly when it has no zero byte before its last. */
  lemma SamePrefixExact(a: Bytes)
    ensures (forall b: Bytes :: |b| == |a| ==> (SamePrefix(a, b, |a|) <==> a == b)) <==> ZeroLast(a)
  {
    if ZeroLast(a) {
      forall b: Bytes | |b| == |a| ensures SamePrefix(a, b, |a|) <==> a == b {
        SamePrefixIs(a, b);
      }
    } else {
      var i :| 0 <= i < |a| - 1 && a[i] == 0;
      var last := |a| - 1;
      var b: Bytes := a[last := 1 - (if a[last] == 0 then 0 else 1)];
      StopsAtZero(a, b, i);
      assert b[last] != a[last];
    }
  }

  predicate Matches(words: Words, v: nat, s: Bytes) {
    v < |words| && words[v].Some? && |words[v].value| == |s| && SamePrefix(words[v].value, s, |s|)
  }

  // ---- The table ----

  /** Every string of the vocabulary is compared exactly. */
  ghost predicate Exact(words: Words) {
    forall v :: 0 <= v < |words| && words[v].Some? ==> ZeroLast(words[v].value)
  }

  /** How many of the first `n` ids have a string. */
  function Count(words: Words, n: nat): nat
    requires n <= |words|
  {
    if n == 0 then 0 else Count(words, n - 1) + if words[n - 1].Some? then 1 else 0
  }

  /** Id `v` is `d` steps from its home, behind smaller ids only. */
  ghost predicate At(ht: seq<nat>, h: nat, d: nat, v: nat)
    requires |ht| == SIZE
  {
    ht[Probe(h, d)] == v && forall e: nat :: e < d ==> ht[Probe(h, e)] < v
  }

  ghost predicate Stored(ht: seq<nat>, s: Bytes, v: nat)
    requires |ht| == SIZE
  {
    exists d: nat :: At(ht, Home(s), d, v)
  }

  /** Slots hold ids below `n` that have a string. */
  ghost predicate Slots(ht: seq<nat>, words: Words, n: nat) {
    forall i :: 0 <= i < |ht| ==> ht[i] == EMPTY || (ht[i] < n && ht[i] < |words| && words[ht[i]].Some?)
  }

  ghost predicate AllStored(ht: seq<nat>, words: Words, n: nat)
    requires |ht| == SIZE && n <= |words|
  {
    forall v :: 0 <= v < n && words[v].Some? ==> Stored(ht, words[v].value, v)
  }

  ghost predicate Taken(ht: seq<nat>, used: set<nat>) {
    forall i :: i in used <==> 0 <= i < |ht| && ht[i] != EMPTY
  }

  /** The table holds the ids below `n` that have a string, and `used` is the set of its taken slots. */
  ghost predicate Indexed(ht: seq<nat>, words: Words, n: nat, used: set<nat>) {
    && |ht| == SIZE && n <= |words| <= EMPTY
    && Slots(ht, words, n) && AllStored(ht, words, n) && Taken(ht, used) && |used| == Count(words, n)
  }

  // ---- An empty slot exists and probing reaches it ----

  function Range(n: nat): (r: set<nat>)
    ensures forall i :: i in r <==> 0 <= i < n
    ensures |r| == n
  {
    if n == 0 then {} else Range(n - 1) + {n - 1}
  }

  lemma OneMissing(all: set<nat>, used: set<nat>)
    requires used <= all && |used| < |all|
    ensures exists i :: i in all && i !in used
  {
    var rest := all - used;
    assert all == used + rest;
    assert rest != {};
    var i :| i in rest;
    assert i in all && i !in used;
  }

  lemma Vacant(ht: seq<nat>, used: set<nat>)
    requires Taken(ht, used) && |used| < |ht|
    ensures exists i :: 0 <= i < |ht| && ht[i] == EMPTY
  {
    var all := Range(|ht|);
    OneMissing(all, used);
    var i :| i in all && i !in used;
    assert ht[i] == EMPTY;
  }

  lemma Reached(h: nat, i: nat) returns (d: nat)
    requires h < SIZE && i < SIZE
    ensures d < SIZE && Probe(h, d) == i
  {
    d := if h <= i then i - h else SIZE + i - h;
    assert Probe(h, d) == if h <= i then i % SIZE else (SIZE + i) % SIZE;
  }

  lemma {:induction false} CountUp(words: Words, n: nat)
    requires n <= |words|
    ensures Count(words, n) <= Count(words, |words|)
    decreases |words| - n
  {
    if n < |words| {
      CountUp(words, n + 1);
    }
  }

  // ---- Filling the table ----

  lemma ProbeNext(h: nat, d: nat)
    ensures Probe(h, d + 1) == (Probe(h, d) + 1) % SIZE
  {
  }

  /** Taking an empty slot keeps every id already stored where it is. */
  lemma StoredKept(ht: seq<nat>, i: nat, n: nat, s: Bytes, v: nat)
    requires |ht| == SIZE && i < SIZE && ht[i] == EMPTY && v < n < EMPTY && Stored(ht, s, v)
    ensures Stored(ht[i := n], s, v)
  {
    var d: nat :| At(ht, Home(s), d, v);
    assert At(ht[i := n], Home(s), d, v);
  }

  lemma StoredNew(ht: seq<nat>, d: nat, n: nat, s: Bytes)
    requires |ht| == SIZE && ht[Probe(Home(s), d)] == EMPTY && n < EMPTY
    requires forall e: nat :: e < d ==> ht[Probe(Home(s), e)] < n
    ensures Stored(ht[Probe(Home(s), d) := n], s, n)
  {
    var i := Probe(Home(s), d);
    var r := ht[i := n];
    forall e: nat | e < d ensures r[Probe(Home(s), e)] < n {
      assert ht[Probe(Home(s), e)] < n;
    }
    assert At(r, Home(s), d, n);
  }

  lemma IndexedNext(ht: seq<nat>, words: Words, n: nat, used: set<nat>, d: nat)
    requires Indexed(ht, words, n, used) && n < |words| && words[n].Some?
    requires var h := Home(words[n].value); ht[Probe(h, d)] == EMPTY && forall e: nat :: e < d ==> ht[Probe(h, e)] != EMPTY
    ensures var i := Probe(Home(words[n].value), d); Indexed(ht[i := n], words, n + 1, used + {i})
  {
    var s := words[n].value;
    var i := Probe(Home(s), d);
    hide Stored, Probe, Home;
    forall e: nat | e < d ensures ht[Probe(Home(s), e)] < n {
      var k := Probe(Home(s), e);
      assert ht[k] == EMPTY || ht[k] < n;
    }
    hide Slots, Taken;
    StoredNew(ht, d, n, s);
    AllStoredNext(ht, words, n, i);
    SlotsNext(ht, words, n, i);
    TakenNext(ht, used, i, n);
  }

  lemma AllStoredNext(ht: seq<nat>, words: Words, n: nat, i: nat)
    requires |ht| == SIZE && n < |words| <= EMPTY && i < SIZE && ht[i] == EMPTY && AllStored(ht, words, n)
    requires words[n].Some? && Stored(ht[i := n], words[n].value, n)
    ensures AllStored(ht[i := n], words, n + 1)
  {
    hide Stored;
    forall v | 0 <= v < n && words[v].Some? ensures Stored(ht[i := n], words[v].value, v) {
      StoredKept(ht, i, n, words[v].value, v);
    }
  }

  lemma SlotsNext(ht: seq<nat>, words: Words, n: nat, i: nat)
    requires Slots(ht, words, n) && n < |words| && words[n].Some? && i < |ht|
    ensures Slots(ht[i := n], words, n + 1)
  {
  }

  lemma TakenNext(ht: seq<nat>, used: set<nat>, i: nat, n: nat)
    requires Taken(ht, used) && i < |ht| && ht[i] == EMPTY && n < EMPTY
    ensures Taken(ht[i := n], used + {i}) && |used + {i}| == |used| + 1
  {
  }

  lemma IndexedSkip(ht: seq<nat>, words: Words, n: nat, used: set<nat>)
    requires Indexed(ht, words, n, used) && n < |words| && words[n].None?
    ensures Indexed(ht, words, n + 1, used)
  {
    hide Stored;
  }

  lemma SomeVacant(ht: seq<nat>, words: Words, n: nat, used: set<nat>)
    requires Indexed(ht, words, n, used) && Count(words, |words|) < SIZE
    ensures exists i :: 0 <= i < SIZE && ht[i] == EMPTY
  {
    CountUp(words, n);
    Vacant(ht, used);
  }

  /** The table holds every id that has a string. */
  ghost predicate Complete(ht: seq<nat>, words: Words) {
    exists used :: Indexed(ht, words, |words|, used)
  }

  /** Inserts every id in order; each probe ends because the table is never full. */
  method Build(words: Words) returns (ht: array<nat>)
    requires |words| <= EMPTY && Count(words, |words|) < SIZE
    ensures fresh(ht) && ht.Length == SIZE && Complete(ht[..], words)
  {
    hide Home, Probe, Stored, Count, Indexed;
    ht := new nat[SIZE];
    for h := 0 to SIZE
      invariant forall i :: 0 <= i < h ==> ht[i] == EMPTY
    {
      ht[h] := EMPTY;
    }
    ghost var used: set<nat> := {};
    IndexedEmpty(ht[..], words);
    for v := 0 to |words|
      invariant Indexed(ht[..], words, v, used)
    {
      if words[v].None? {
        IndexedSkip(ht[..], words, v, used);
        continue;
      }
      var h := Hash(words[v].value);
      ghost var home, d := h, 0;
      ghost var far := FarthestProbe(ht[..], words, v, used, home);
      ProbeZero(home);
      ghost var was := ht[..];
      while ht[h] != EMPTY
        invariant ht[..] == was && 0 <= d <= far && h == Probe(home, d)
        invariant forall e: nat :: e < d ==> was[Probe(home, e)] != EMPTY
        decreases far - d
      {
        ProbeNext(home, d);
        h := (h + 1) % SIZE;
        d := d + 1;
      }
      IndexedNext(ht[..], words, v, used, d);
      ht[h] := v;
      used := used + {h};
    }
  }

  lemma IndexedEmpty(ht: seq<nat>, words: Words)
    requires |ht| == SIZE && |words| <= EMPTY && forall i :: 0 <= i < SIZE ==> ht[i] == EMPTY
    ensures Indexed(ht, words, 0, {})
  {
  }

  lemma ProbeZero(h: nat)
    requires h < SIZE
    ensures Probe(h, 0) == h
  {
  }

  /** A distance at which probing from `h` meets an empty slot. */
  lemma FarthestProbe(ht: seq<nat>, words: Words, n: nat, used: set<nat>, h: nat) returns (d: nat)
    requires Indexed(ht, words, n, used) && Count(words, |words|) < SIZE && h < SIZE
    ensures ht[Probe(h, d)] == EMPTY
  {
    SomeVacant(ht, words, n, used);
    var i :| 0 <= i < SIZE && ht[i] == EMPTY;
    d := Reached(h, i);
  }

  // ---- Searching it ----

  /** A scan of the vocabulary from id `v` on. */
  function Scan(words: Words, s: Bytes, v: nat): (r: Option<nat>)
    requires v <= |words|
    ensures r.Some? ==> v <= r.value < |words| && words[r.value] == Some(s)
    ensures forall u :: v <= u < |words| && (r.Some? ==> u < r.value) ==> words[u] != Some(s)
    decreases |words| - v
  {
    if v == |words| then None else if words[v] == Some(s) then Some(v) else Scan(words, s, v + 1)
  }

  /** An id of `s` is met before any larger id and before the first empty slot. */
  lemma MetFirst(ht: seq<nat>, words: Words, used: set<nat>, s: Bytes, d: nat, u: nat)
    requires Indexed(ht, words, |words|, used) && u < |words| && words[u] == Some(s)
    requires forall e: nat :: e < d ==> ht[Probe(Home(s), e)] != u
    ensures ht[Probe(Home(s), d)] <= u
  {
    assert Stored(ht, s, u);
    var m: nat :| At(ht, Home(s), m, u);
    assert m >= d;
  }

  /** The first `d` slots from the home of `s` are taken by other strings. */
  ghost predicate Passed(ht: seq<nat>, words: Words, s: Bytes, d: nat) {
    |ht| == SIZE && forall e: nat :: e < d ==> Other(words, s, ht[Probe(Home(s), e)])
  }

  predicate Other(words: Words, s: Bytes, v: nat) {
    v != EMPTY && v < |words| && words[v] != Some(s)
  }

  lemma FoundLeast(ht: seq<nat>, words: Words, used: set<nat>, s: Bytes, d: nat)
    requires Indexed(ht, words, |words|, used) && Passed(ht, words, s, d)
    ensures var v := ht[Probe(Home(s), d)];
      && (v == EMPTY ==> Scan(words, s, 0) == None)
      && (v != EMPTY ==> v < |words| && (words[v] == Some(s) ==> Scan(words, s, 0) == Some(v)))
  {
    hide Home, Probe, AllStored, Taken, Count, Scan;
    var k := Probe(Home(s), d);
    var r := Scan(words, s, 0);
    assert ht[k] == EMPTY || ht[k] < |words|;
    if r.Some? {
      forall e: nat | e < d ensures ht[Probe(Home(s), e)] != r.value {
        assert Other(words, s, ht[Probe(Home(s), e)]);
      }
      MetFirst(ht, words, used, s, d, r.value);
    }
  }

  lemma MatchIs(words: Words, v: nat, s: Bytes)
    requires Exact(words)
    ensures Matches(words, v, s) <==> v < |words| && words[v] == Some(s)
  {
    if v < |words| && words[v].Some? && |words[v].value| == |s| {
      SamePrefixIs(words[v].value, s);
    }
  }

  /** The first `d` slots from the home of `s` are taken, and the comparison refuses every one. */
  ghost predicate Refused(ht: seq<nat>, words: Words, s: Bytes, d: nat) {
    |ht| == SIZE && forall e: nat :: e < d ==> ht[Probe(Home(s), e)] != EMPTY && !Matches(words, ht[Probe(Home(s), e)], s)
  }

  /** Probing ends at distance `d`, at an empty slot or at the first id that the comparison takes for `s`. */
  ghost predicate Ends(ht: seq<nat>, words: Words, s: Bytes, d: nat, r: Option<nat>) {
    && Refused(ht, words, s, d)
    && var v := ht[Probe(Home(s), d)];
       if v == EMPTY then r == None else Matches(words, v, s) && r == Some(v)
  }

  lemma RefusedNone(ht: seq<nat>, words: Words, s: Bytes)
    requires |ht| == SIZE
    ensures Refused(ht, words, s, 0)
  {
  }

  lemma RefusedNext(ht: seq<nat>, words: Words, s: Bytes, d: nat)
    requires Refused(ht, words, s, d) && ht[Probe(Home(s), d)] != EMPTY && !Matches(words, ht[Probe(Home(s), d)], s)
    ensures Refused(ht, words, s, d + 1)
  {
    hide Probe, Home, Matches;
  }

  /** With exact comparison the id that probing ends at is the one a scan finds first. */
  lemma EndsIsScan(ht: seq<nat>, words: Words, used: set<nat>, s: Bytes, d: nat, r: Option<nat>)
    requires Indexed(ht, words, |words|, used) && Exact(words) && Ends(ht, words, s, d, r)
    ensures r == Scan(words, s, 0)
  {
    hide Home, Probe, Scan, Stored, AllStored, Taken, Count, Matches, Exact;
    forall e: nat | e < d ensures Other(words, s, ht[Probe(Home(s), e)]) {
      var k := Probe(Home(s), e);
      assert ht[k] != EMPTY && ht[k] < |words|;
      MatchIs(words, ht[k], s);
    }
    FoundLeast(ht, words, used, s, d);
    MatchIs(words, ht[Probe(Home(s), d)], s);
  }

  /** The id a full scan finds first, or none if there is none. */
  method Lookup(ht: array<nat>, words: Words, s: Bytes) returns (r: Option<nat>, ghost d: nat)
    requires ht.Length == SIZE && Complete(ht[..], words) && Count(words, |words|) < SIZE
    ensures Ends(ht[..], words, s, d, r)
    ensures Exact(words) ==> r == Scan(words, s, 0)
  {
    ghost var used :| Indexed(ht[..], words, |words|, used);
    hide Home, Probe, Stored, Count, Indexed, Exact, Matches, Scan, Refused;
    RefusedNone(ht[..], words, s);
    var h := Hash(s);
    ghost var home := h;
    d := 0;
    ghost var far := FarthestProbe(ht[..], words, |words|, used, home);
    ProbeZero(home);
    r := None;
    while ht[h] != EMPTY && r == None
      invariant 0 <= d <= far && h == Probe(home, d) && Refused(ht[..], words, s, d)
      invariant r == None || (ht[h] != EMPTY && Matches(words, ht[h], s) && r == Some(ht[h]))
      decreases far - d, r == None
    {
      var v := ht[h];
      if Matches(words, v, s) {
        r := Some(v);
      } else {
        RefusedNext(ht[..], words, s, d);
        ProbeNext(home, d);
        h := (h + 1) % SIZE;
        d := d + 1;
      }
    }
    if Exact(words) {
      EndsIsScan(ht[..], words, used, s, d, r);
    }
  }
}
