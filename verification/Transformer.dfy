/**
 The forward pass that feeds one token: it fills one row of the key/value buffer per layer and
 attends over the rows of all positions so far. It computes the cache-free causal forward pass.
 */
module Transformer {
  import opened KvCache

  // ---- Where the rows are in the buffer ----

  /** The offset of position `t` of layer `l`, from 32-bit products. */
  function Base<R>(net: Net<R>, l: nat, t: nat): nat {
    l * net.maxSeq * net.KvDim() % W32 + t * net.KvDim() % W32
  }

  function HalfSize<R>(net: Net<R>): nat {
    net.layers * net.maxSeq * net.KvDim()
  }

  lemma RowInside(l: nat, t: nat, layers: nat, n: nat, d: nat)
    requires l < layers && t < n
    ensures l * n * d + t * d == (l * n + t) * d && (l * n + t) * d + d <= layers * n * d
    ensures l * n * d <= layers * n * d - n * d && t * d <= n * d - d && n * d <= layers * n * d
  {
    Slot(t, n, d);
    Slot(l, layers, n);
    RowSpan(l * n, n, layers * n, t, d);
  }

  lemma RowSpan(p: nat, n: nat, q: nat, t: nat, d: nat)
    requires p + n <= q && t < n
    ensures p * d + t * d == (p + t) * d && (p + t) * d + d <= q * d && p * d + n * d <= q * d && n * d <= q * d
  {
    Slot(p + t, q, d);
    assert p * d + n * d == (p + n) * d <= q * d;
  }

  /** No product wraps around, and rows fit their half of the buffer. */
  lemma BaseIs<R(!new)>(net: Net<R>, l: nat, t: nat)
    requires Shaped(net) && l < net.layers && t < net.maxSeq
    ensures Base(net, l, t) == (l * net.maxSeq + t) * net.KvDim()
    ensures Base(net, l, t) + net.KvDim() <= HalfSize(net)
    ensures net.KvDim() > 0
  {
    var d := net.KvDim();
    assert d > 0 && HalfSize(net) <= W32;
    hide Shaped, Net.KvDim;
    RowInside(l, t, net.layers, net.maxSeq, d);
    Small(l * net.maxSeq * d);
    Small(t * d);
  }

  /**
   A row lies inside the part of its layer exactly for positions below the sequence limit; the row at
   the limit is the first row of the next layer, or for the last layer begins where the buffer half ends.
   */
  lemma RowFitsExact<R(!new)>(net: Net<R>, l: nat, t: nat)
    requires Shaped(net) && l < net.layers && t * net.KvDim() < W32
    ensures Base(net, l, t) + net.KvDim() <= (l + 1) * net.maxSeq * net.KvDim() <==> t < net.maxSeq
    ensures t == net.maxSeq && l + 1 < net.layers ==> Base(net, l, t) == Base(net, l + 1, 0)
    ensures t == net.maxSeq && l + 1 == net.layers ==> Base(net, l, t) == HalfSize(net)
  {
    var n, d := net.maxSeq, net.KvDim();
    assert d > 0 && HalfSize(net) <= W32;
    hide Shaped, Net.KvDim;
    if n == 0 {
      RowSum(l, t, n, d);
    } else {
      RowInside(l, 0, net.layers, n, d);
      Small(l * n * d);
      Small(t * d);
      RowSum(l, t, n, d);
      if l + 1 < net.layers {
        RowInside(l + 1, 0, net.layers, n, d);
        Small((l + 1) * n * d);
      }
    }
  }

  lemma RowSum(l: nat, t: nat, n: nat, d: nat)
    requires d > 0
    ensures l * n * d + t * d + d <= (l + 1) * n * d <==> t < n
    ensures l * n * d + n * d == (l + 1) * n * d
  {
    assert (l + 1) * n == l * n + n;
    assert (l + 1) * n * d == l * n * d + n * d;
    if t < n { Slot(t, n, d); } else if n < t { Slot(n, t, d); }
  }

  lemma Small(x: nat)
    requires x < W32
    ensures x % W32 == x
  {
  }

  lemma SlotsApart(i: nat, j: nat, d: nat)
    requires i < j
    ensures i * d + d <= j * d
  {
    Slot(i, j, d);
  }

  lemma IndexApart(l: nat, t: nat, l': nat, t': nat, n: nat)
    requires t < n && t' < n && (l != l' || t != t')
    ensures l * n + t != l' * n + t'
  {
    if l < l' {
      Slot(l, l', n);
    } else if l' < l {
      Slot(l', l, n);
    }
  }

  /** Different rows do not overlap. */
  lemma RowsApart<R(!new)>(net: Net<R>, l: nat, t: nat, l': nat, t': nat)
    requires Shaped(net) && l < net.layers && l' < net.layers && t < net.maxSeq && t' < net.maxSeq && (l != l' || t != t')
    ensures var d, a, b := net.KvDim(), Base(net, l, t), Base(net, l', t'); a + d <= b || b + d <= a
  {
    var n, d := net.maxSeq, net.KvDim();
    BaseIs(net, l, t);
    BaseIs(net, l', t');
    IndexApart(l, t, l', t', n);
    hide Base, Shaped;
    if l * n + t < l' * n + t' {
      SlotsApart(l * n + t, l' * n + t', d);
    } else {
      SlotsApart(l' * n + t', l * n + t, d);
    }
  }

  /** `row` is in the buffer at `base`. */
  ghost predicate RowAt<R>(kv: seq<R>, base: nat, row: seq<R>) {
    base + |row| <= |kv| && kv[base..base + |row|] == row
  }

  lemma RowElem<R>(kv: seq<R>, base: nat, row: seq<R>, i: nat)
    requires RowAt(kv, base, row) && i < |row|
    ensures kv[base + i] == row[i]
  {
    assert kv[base..base + |row|][i] == row[i];
  }

  lemma RowKept<R>(kv: seq<R>, kv': seq<R>, base: nat, row: seq<R>, lo: nat, hi: nat)
    requires RowAt(kv, base, row) && |kv'| == |kv| && (base + |row| <= lo || hi <= base)
    requires forall i :: 0 <= i < |kv| && !(lo <= i < hi) ==> kv'[i] == kv[i]
    ensures RowAt(kv', base, row)
  {
  }

  /** The rows of layer `l` for the positions in `ks` and `vs`. */
  ghost predicate Cached<R>(net: Net<R>, kv: seq<R>, l: nat, ks: seq<seq<R>>, vs: seq<seq<R>>, n: nat)
    requires n <= |ks| && n <= |vs|
  {
    forall t :: 0 <= t < n ==> RowAt(kv, Base(net, l, t), ks[t]) && RowAt(kv, HalfSize(net) + Base(net, l, t), vs[t])
  }

  lemma CachedRow<R>(net: Net<R>, kv: seq<R>, l: nat, ks: seq<seq<R>>, vs: seq<seq<R>>, n: nat, t: nat)
    requires t < n <= |ks| && n <= |vs| && Cached(net, kv, l, ks, vs, n)
    ensures RowAt(kv, Base(net, l, t), ks[t]) && RowAt(kv, HalfSize(net) + Base(net, l, t), vs[t])
  {
  }

  /** Layer `l` holds the rows of the first `n` positions of `tokens`. */
  ghost predicate Holds<R(!new)>(net: Net<R>, kv: seq<R>, tokens: seq<nat>, l: nat, n: nat)
    requires Shaped(net) && n <= |tokens|
  {
    var xs := Inputs(net, tokens, l);
    Cached(net, kv, l, Keys(net, l, xs), Values(net, l, xs), n)
  }

  lemma HeadElem<R(!new)>(net: Net<R>, q: seq<R>, ks: seq<seq<R>>, vs: seq<seq<R>>, h: nat, i: nat)
    requires Shaped(net) && h < net.heads && |q| == net.Dim() && Rows(net, ks) && Rows(net, vs) && |ks| == |vs|
    requires i < net.headDim
    ensures net.heads >= net.kvHeads && net.KvAt(h) + i < net.KvDim()
    ensures Head(net, q, ks, vs, h)[i] ==
            Mix(net, net.softmax(Scores(net, q, ks, h)), vs, net.KvAt(h) + i, |vs|)
  {
    hide Mix, Scores, Net.KvAt;
    HeadFits(net, h);
  }

  /** One weighted row was added to the first `d` numbers from `o` on, and nothing else changed. */
  ghost predicate RowAdded<R>(net: Net<R>, xb: seq<R>, xb': seq<R>, o: nat, d: nat, w: R, row: seq<R>, b: nat) {
    && |xb'| == |xb| && o + d <= |xb| && b + d <= |row|
    && (forall k :: o <= k < o + d ==> xb'[k] == net.add(xb[k], net.mul(w, row[k - o + b])))
    && (forall k :: 0 <= k < |xb| && !(o <= k < o + d) ==> xb'[k] == xb[k])
  }

  /** The numbers from `o` on are the weighted sums of the first `n` rows, and nothing else changed. */
  ghost predicate Blended<R>(net: Net<R>, was: seq<R>, xb: seq<R>, o: nat, g: nat, d: nat, w: seq<R>, vs: seq<seq<R>>, n: nat) {
    && |xb| == |was| && o + d <= |xb| && n <= |w| && n <= |vs| && (forall t :: 0 <= t < |vs| ==> g + d <= |vs[t]|)
    && (forall k :: o <= k < o + d ==> xb[k] == Mix(net, w, vs, k - o + g, n))
    && (forall k :: 0 <= k < |xb| && !(o <= k < o + d) ==> xb[k] == was[k])
  }

  lemma BlendStart<R>(net: Net<R>, was: seq<R>, xb: seq<R>, o: nat, g: nat, d: nat, w: seq<R>, vs: seq<seq<R>>)
    requires |xb| == |was| && o + d <= |xb| && forall t :: 0 <= t < |vs| ==> g + d <= |vs[t]|
    requires forall k :: o <= k < o + d ==> xb[k] == net.zero
    requires forall k :: 0 <= k < |xb| && !(o <= k < o + d) ==> xb[k] == was[k]
    ensures Blended(net, was, xb, o, g, d, w, vs, 0)
  {
  }

  lemma BlendStep<R>(net: Net<R>, was: seq<R>, xb: seq<R>, xb': seq<R>, o: nat, g: nat, d: nat, w: seq<R>, vs: seq<seq<R>>, t: nat)
    requires Blended(net, was, xb, o, g, d, w, vs, t) && t < |w| && t < |vs| && RowAdded(net, xb, xb', o, d, w[t], vs[t], g)
    ensures Blended(net, was, xb', o, g, d, w, vs, t + 1)
  {
    forall k | o <= k < o + d ensures xb'[k] == Mix(net, w, vs, k - o + g, t + 1) {
      assert xb[k] == Mix(net, w, vs, k - o + g, t);
    }
  }

  lemma HeadSegment<R(!new)>(net: Net<R>, q: seq<R>, ks: seq<seq<R>>, vs: seq<seq<R>>, h: nat, was: seq<R>, xb: seq<R>,
                             o: nat, g: nat)
    requires Shaped(net) && h < net.heads && |q| == net.Dim() && Rows(net, ks) && Rows(net, vs) && |ks| == |vs|
    requires net.heads >= net.kvHeads && g == net.KvAt(h)
    requires Blended(net, was, xb, o, g, net.headDim, net.softmax(Scores(net, q, ks, h)), vs, |vs|)
    ensures |xb| == |was| && o + net.headDim <= |xb|
    ensures xb[..o + net.headDim] == was[..o] + Head(net, q, ks, vs, h)
  {
    hide Mix, Scores, Net.KvAt, Shaped, Head;
    var d, r := net.headDim, xb[..o + net.headDim];
    forall k | o <= k < o + d ensures r[k] == Head(net, q, ks, vs, h)[k - o] {
      HeadElem(net, q, ks, vs, h, k - o);
    }
    assert r == was[..o] + Head(net, q, ks, vs, h);
  }

  lemma AttendStep<R(!new)>(net: Net<R>, q: seq<R>, ks: seq<seq<R>>, vs: seq<seq<R>>, h: nat)
    requires Shaped(net) && h < net.heads && |q| == net.Dim() && Rows(net, ks) && Rows(net, vs) && |ks| == |vs|
    ensures Attend(net, q, ks, vs, h + 1) == Attend(net, q, ks, vs, h) + Head(net, q, ks, vs, h)
  {
    hide Head, Shaped, Rows;
  }

  /** The last position of a layer's output attends to all positions. */
  lemma LayerOut<R(!new)>(net: Net<R>, tokens: seq<nat>, l: nat)
    requires Shaped(net) && |tokens| > 0
    ensures var p, xs := |tokens| - 1, Inputs(net, tokens, l);
      Inputs(net, tokens, l + 1)[p] ==
        net.finish(l, xs[p], Attend(net, net.query(l, xs[p], p), Keys(net, l, xs), Values(net, l, xs), net.heads))
  {
    var p, xs := |tokens| - 1, Inputs(net, tokens, l);
    OutputIs(net, tokens, l + 1, p);
    hide Inputs, Attend, Keys, Values, Shaped;
    assert xs[..p + 1] == xs;
  }

  lemma LengthsOf<R(!new)>(net: Net<R>, l: nat, x: seq<R>, p: nat)
    requires Shaped(net)
    ensures |net.query(l, x, p)| == net.Dim() && |net.project(l, x)| == |net.value(l, x)| == |net.Key(l, x, p)| == net.KvDim()
    ensures forall k: seq<R> :: |net.rotate(k, p)| == |k|
  {
  }

  // ---- One position added to one layer ----

  /** Only the rows of position `p` of layer `l` changed, and they are `k` and `v`. */
  ghost predicate Filled<R>(net: Net<R>, kv: seq<R>, kv': seq<R>, l: nat, p: nat, k: seq<R>, v: seq<R>) {
    var base, half := Base(net, l, p), HalfSize(net);
    && |kv'| == |kv| && |k| == |v| == net.KvDim()
    && RowAt(kv', base, k) && RowAt(kv', half + base, v)
    && forall i :: 0 <= i < |kv| && !(base <= i < base + |k|) && !(half + base <= i < half + base + |k|) ==> kv'[i] == kv[i]
  }

  /** `row` was written at `base` and nowhere else. */
  ghost predicate Put<R>(kv: seq<R>, kv': seq<R>, base: nat, row: seq<R>) {
    && |kv'| == |kv| && RowAt(kv', base, row)
    && forall i :: 0 <= i < |kv| && !(base <= i < base + |row|) ==> kv'[i] == kv[i]
  }

  lemma RowSlice<R>(kv: seq<R>, kv': seq<R>, base: nat, row: seq<R>)
    requires Put(kv, kv', base, row)
    ensures base + |row| <= |kv'| && kv'[base..base + |row|] == row
  {
  }

  /** A value row, then a key row written twice: the value row stays, the rest is untouched. */
  lemma ThreePuts<R>(net: Net<R>, was: seq<R>, a: seq<R>, b: seq<R>, c: seq<R>, l: nat, p: nat, k0: seq<R>, k: seq<R>, v: seq<R>)
    requires |k0| == |k| == |v| == net.KvDim() && Base(net, l, p) + net.KvDim() <= HalfSize(net)
    requires Put(was, a, HalfSize(net) + Base(net, l, p), v)
    requires Put(a, b, Base(net, l, p), k0) && Put(b, c, Base(net, l, p), k)
    ensures Filled(net, was, c, l, p, k, v)
  {
    hide Base, HalfSize, Net.KvDim;
    RowKept(a, c, HalfSize(net) + Base(net, l, p), v, Base(net, l, p), Base(net, l, p) + |k|);
  }

  lemma KeptApart<R>(kv: seq<R>, kv': seq<R>, base: nat, row: seq<R>, a: nat, b: nat, d: nat)
    requires RowAt(kv, base, row) && |kv'| == |kv|
    requires (base + |row| <= a || a + d <= base) && (base + |row| <= b || b + d <= base)
    requires forall i :: 0 <= i < |kv| && !(a <= i < a + d) && !(b <= i < b + d) ==> kv'[i] == kv[i]
    ensures RowAt(kv', base, row)
  {
  }

  lemma RowsSurvive<R(!new)>(net: Net<R>, kv: seq<R>, kv': seq<R>, l: nat, p: nat, k: seq<R>, v: seq<R>,
                             m: nat, t: nat, key: seq<R>, value: seq<R>)
    requires Shaped(net) && Filled(net, kv, kv', l, p, k, v) && l < net.layers && p < net.maxSeq
    requires m < net.layers && t < net.maxSeq && (m != l || t != p) && |key| == |value| == net.KvDim()
    requires RowAt(kv, Base(net, m, t), key) && RowAt(kv, HalfSize(net) + Base(net, m, t), value)
    ensures RowAt(kv', Base(net, m, t), key) && RowAt(kv', HalfSize(net) + Base(net, m, t), value)
  {
    hide Base, Shaped, HalfSize, RowAt, Net.KvDim;
    var a, b, half, d := Base(net, l, p), Base(net, m, t), HalfSize(net), net.KvDim();
    BaseIs(net, l, p);
    BaseIs(net, m, t);
    RowsApart(net, l, p, m, t);
    KeptApart(kv, kv', b, key, a, half + a, d);
    KeptApart(kv, kv', half + b, value, a, half + a, d);
  }

  lemma HoldsIs<R(!new)>(net: Net<R>, kv: seq<R>, tokens: seq<nat>, l: nat, n: nat)
    requires Shaped(net) && n <= |tokens| && Holds(net, kv, tokens, l, n)
    ensures var xs := Inputs(net, tokens, l); Cached(net, kv, l, Keys(net, l, xs), Values(net, l, xs), n)
  {
  }

  lemma RowOf<R(!new)>(net: Net<R>, xs: seq<seq<R>>, l: nat, t: nat)
    requires Shaped(net) && t < |xs|
    ensures Keys(net, l, xs)[t] == net.Key(l, xs[t], t) && Values(net, l, xs)[t] == net.value(l, xs[t])
    ensures |Keys(net, l, xs)[t]| == |Values(net, l, xs)[t]| == net.KvDim()
  {
    LengthsOf(net, l, xs[t], t);
    hide Shaped;
  }

  /** Whatever a layer held at other places it still holds. */
  lemma FilledElsewhere<R(!new)>(net: Net<R>, kv: seq<R>, kv': seq<R>, tokens: seq<nat>, l: nat, p: nat, k: seq<R>, v: seq<R>,
                                 m: nat, n: nat)
    requires Shaped(net) && Filled(net, kv, kv', l, p, k, v) && l < net.layers && p < net.maxSeq
    requires m < net.layers && n <= |tokens| <= net.maxSeq && (m != l || n <= p) && Holds(net, kv, tokens, m, n)
    ensures Holds(net, kv', tokens, m, n)
  {
    hide Base, Shaped, HalfSize, RowAt, Filled, Inputs, Keys, Values;
    var xs := Inputs(net, tokens, m);
    forall t | 0 <= t < n
      ensures RowAt(kv', Base(net, m, t), Keys(net, m, xs)[t]) && RowAt(kv', HalfSize(net) + Base(net, m, t), Values(net, m, xs)[t])
    {
      RowOf(net, xs, m, t);
      RowsSurvive(net, kv, kv', l, p, k, v, m, t, Keys(net, m, xs)[t], Values(net, m, xs)[t]);
    }
  }

  lemma FilledKeeps<R(!new)>(net: Net<R>, kv: seq<R>, kv': seq<R>, tokens: seq<nat>, l: nat, p: nat, k: seq<R>, v: seq<R>)
    requires Shaped(net) && Filled(net, kv, kv', l, p, k, v) && l < net.layers && p < net.maxSeq && |tokens| <= net.maxSeq
    ensures forall m: nat, n: nat :: m < net.layers && m != l && n <= |tokens| && Holds(net, kv, tokens, m, n) ==>
              Holds(net, kv', tokens, m, n)
  {
    hide Shaped, Holds, Filled, HalfSize;
    forall m: nat, n: nat | m < net.layers && m != l && n <= |tokens| && Holds(net, kv, tokens, m, n)
      ensures Holds(net, kv', tokens, m, n)
    {
      FilledElsewhere(net, kv, kv', tokens, l, p, k, v, m, n);
    }
  }

  /** The layer that was filled holds one position more. */
  lemma FilledHolds<R(!new)>(net: Net<R>, kv: seq<R>, kv': seq<R>, tokens: seq<nat>, l: nat)
    requires Shaped(net) && 0 < |tokens| <= net.maxSeq && l < net.layers
    requires var p, x := |tokens| - 1, Inputs(net, tokens, l)[|tokens| - 1];
      Filled(net, kv, kv', l, p, net.Key(l, x, p), net.value(l, x)) && Holds(net, kv, tokens, l, p)
    ensures Holds(net, kv', tokens, l, |tokens|)
  {
    hide Shaped, Base, HalfSize, RowAt, Inputs, Keys, Values;
    var p, xs := |tokens| - 1, Inputs(net, tokens, l);
    FilledElsewhere(net, kv, kv', tokens, l, p, net.Key(l, xs[p], p), net.value(l, xs[p]), l, p);
    RowOf(net, xs, l, p);
  }

  /** The rows held for a prefix are rows of the longer sequence. */
  lemma HoldsMore<R(!new)>(net: Net<R>, kv: seq<R>, tokens: seq<nat>, more: seq<nat>, l: nat)
    requires Shaped(net) && Holds(net, kv, tokens, l, |tokens|)
    ensures Holds(net, kv, tokens + more, l, |tokens|)
  {
    hide Base, Shaped, HalfSize, RowAt, Inputs, Keys, Values;
    var xs, ys := Inputs(net, tokens, l), Inputs(net, tokens + more, l);
    Causal(net, tokens, more, l);
    forall t | 0 <= t < |tokens| ensures Keys(net, l, xs)[t] == Keys(net, l, ys)[t] && Values(net, l, xs)[t] == Values(net, l, ys)[t] {
      RowOf(net, xs, l, t);
      RowOf(net, ys, l, t);
      assert xs[t] == ys[..|tokens|][t];
    }
  }

  class Transformer<R(!new)> {
    const net: Net<R>
    const kv: array<R>
    const att: array<R>
    const xb: array<R>
    var pos: nat
    ghost var tokens: seq<nat>

    /** The buffer starts out as zeros. */
    constructor (net: Net<R>)
      requires Shaped(net)
      ensures this.net == net && Valid() && tokens == [] && fresh(kv) && fresh(att) && fresh(xb)
    {
      this.net := net;
      kv := new R[2 * (net.layers * net.maxSeq * net.KvDim())](_ => net.zero);
      att := new R[net.maxSeq](_ => net.zero);
      xb := new R[net.Dim()](_ => net.zero);
      pos, tokens := 0, [];
    }

    ghost predicate Shape()
      reads this
    {
      && Shaped(net) && kv.Length == 2 * HalfSize(net) && att.Length == net.maxSeq && xb.Length == net.Dim()
      && kv != att && kv != xb && att != xb
    }

    /** The rows below `pos` are the keys and values of the tokens fed since the last reset. */
    ghost predicate Valid()
      reads this, kv
    {
      Shape() && pos == |tokens| && pos <= net.maxSeq && forall l: nat :: l < net.layers ==> Holds(net, kv[..], tokens, l, pos)
    }

    // ---- Attention ----

    method Score(q: seq<R>, a: nat, base: nat, b: nat, n: nat, ghost row: seq<R>) returns (s: R)
      requires RowAt(kv[..], base, row) && b + n <= |row| && a + n <= |q|
      ensures s == Dot(net, q, a, row, b, n)
    {
      s := net.zero;
      for i := 0 to n
        invariant s == Dot(net, q, a, row, b, i)
      {
        RowElem(kv[..], base, row, b + i);
        s := net.add(s, net.mul(q[a + i], kv[base + b + i]));
      }
    }

    method ScoreAll(l: nat, h: nat, q: seq<R>, ghost ks: seq<seq<R>>, ghost vs: seq<seq<R>>, n: nat)
      requires Shape() && l < net.layers && h < net.heads && |q| == net.Dim() && n <= net.maxSeq
      requires Rows(net, ks) && |ks| == n == |vs| && Cached(net, kv[..], l, ks, vs, n)
      modifies att
      ensures att[..n] == Scores(net, q, ks, h)
    {
      hide Dot, Base, Shaped, Net.KvDim, Net.Dim, Net.QueryAt, Net.KvAt;
      HeadFits(net, h);
      ghost var was := kv[..];
      var d := net.headDim;
      for t := 0 to n
        invariant kv[..] == was
        invariant forall u :: 0 <= u < t ==> att[u] == ScoreOf(net, q, ks[u], h)
      {
        var s := Score(q, net.QueryAt(h), Base(net, l, t), net.KvAt(h), d, ks[t]);
        att[t] := net.scale(s);
      }
    }

    method Soften(n: nat)
      requires n <= att.Length && forall s :: |net.softmax(s)| == |s|
      modifies att
      ensures att[..n] == net.softmax(old(att[..n]))
    {
      var w := net.softmax(att[..n]);
      for i := 0 to n
        invariant att[..i] == w[..i]
      {
        att[i] := w[i];
      }
    }

    /** Adds one position's value row, weighted, to the head's output. */
    method AddRow(o: nat, w: R, base: nat, b: nat, d: nat, ghost row: seq<R>)
      requires kv != xb && RowAt(kv[..], base, row) && b + d <= |row| && o + d <= xb.Length
      modifies xb
      ensures RowAdded(net, old(xb[..]), xb[..], o, d, w, row, b)
    {
      ghost var was, now := xb[..], kv[..];
      for i := 0 to d
        invariant kv[..] == now && RowAdded(net, was, xb[..], o, i, w, row, b)
      {
        RowElem(kv[..], base, row, b + i);
        xb[o + i] := net.add(xb[o + i], net.mul(w, kv[base + b + i]));
      }
    }

    /** Sums the weighted value rows into the head's part of the output. */
    method Blend(l: nat, o: nat, g: nat, d: nat, ghost ks: seq<seq<R>>, ghost vs: seq<seq<R>>, n: nat)
      requires kv != xb && xb != att && n <= att.Length && o + d <= xb.Length
      requires (forall t :: 0 <= t < |vs| ==> g + d <= |vs[t]|) && |ks| == n == |vs| && Cached(net, kv[..], l, ks, vs, n)
      modifies xb
      ensures Blended(net, old(xb[..]), xb[..], o, g, d, att[..n], vs, n)
    {
      hide Base, HalfSize, Cached, RowAdded, Mix;
      ghost var was, rows, w := xb[..], kv[..], att[..n];
      for i := 0 to d
        invariant kv[..] == rows && att[..n] == w
        invariant forall k :: o <= k < o + i ==> xb[k] == net.zero
        invariant forall k :: 0 <= k < xb.Length && !(o <= k < o + d) ==> xb[k] == was[k]
      {
        xb[o + i] := net.zero;
      }
      BlendStart(net, was, xb[..], o, g, d, w, vs);
      hide Blended;
      for t := 0 to n
        invariant kv[..] == rows && att[..n] == w && Blended(net, was, xb[..], o, g, d, w, vs, t)
      {
        CachedRow(net, kv[..], l, ks, vs, n, t);
        assert w[t] == att[t];
        ghost var mid := xb[..];
        AddRow(o, att[t], HalfSize(net) + Base(net, l, t), g, d, vs[t]);
        BlendStep(net, was, mid, xb[..], o, g, d, w, vs, t);
      }
    }

    /** One head: scores, softmax and weighted sum; `g` is the key/value head of its group. */
    method HeadPass(l: nat, h: nat, q: seq<R>, ghost ks: seq<seq<R>>, ghost vs: seq<seq<R>>, n: nat) returns (ghost g: nat)
      requires Shape() && l < net.layers && h < net.heads && |q| == net.Dim() && n <= net.maxSeq
      requires Rows(net, ks) && Rows(net, vs) && |ks| == n == |vs| && Cached(net, kv[..], l, ks, vs, n)
      requires net.QueryAt(h) + net.headDim <= xb.Length
      modifies att, xb
      ensures xb[..net.QueryAt(h) + net.headDim] == old(xb[..net.QueryAt(h)]) + Head(net, q, ks, vs, h)
      ensures AttendsGroup(net, q, ks, vs, h, g, xb[net.QueryAt(h)..net.QueryAt(h) + net.headDim])
    {
      hide Shaped, Head, AttendsGroup, Net.KvHead, Net.QueryAt, Cached;
      HeadIndexed(net, q, ks, vs, h);
      g := net.KvHead(h);
      ScoreWeighBlend(l, h, q, ks, vs, n);
      ghost var o, d := net.QueryAt(h), net.headDim;
      assert xb[o..o + d] == xb[..o + d][o..];
    }

    method ScoreWeighBlend(l: nat, h: nat, q: seq<R>, ghost ks: seq<seq<R>>, ghost vs: seq<seq<R>>, n: nat)
      requires Shape() && l < net.layers && h < net.heads && |q| == net.Dim() && n <= net.maxSeq
      requires Rows(net, ks) && Rows(net, vs) && |ks| == n == |vs| && Cached(net, kv[..], l, ks, vs, n)
      requires net.QueryAt(h) + net.headDim <= xb.Length
      modifies att, xb
      ensures xb[..net.QueryAt(h) + net.headDim] == old(xb[..net.QueryAt(h)]) + Head(net, q, ks, vs, h)
    {
      assert forall s :: |net.softmax(s)| == |s|;
      hide Mix, Base, Shaped, HalfSize, Net.KvDim, Net.Dim, Net.QueryAt, Net.KvAt, Scores, Cached, Head, Blended;
      var d, o, g := net.headDim, net.QueryAt(h), net.KvAt(h);
      HeadFits(net, h);
      ghost var rows, was := kv[..], xb[..];
      ScoreAll(l, h, q, ks, vs, n);
      Soften(n);
      assert kv[..] == rows && xb[..] == was;
      Blend(l, o, g, d, ks, vs, n);
      HeadSegment(net, q, ks, vs, h, was, xb[..], o, g);
    }

    method AttendAll(l: nat, q: seq<R>, ghost ks: seq<seq<R>>, ghost vs: seq<seq<R>>, n: nat)
      requires Shape() && l < net.layers && |q| == net.Dim() && n <= net.maxSeq
      requires Rows(net, ks) && Rows(net, vs) && |ks| == n == |vs| && Cached(net, kv[..], l, ks, vs, n)
      modifies att, xb
      ensures xb[..] == Attend(net, q, ks, vs, net.heads)
    {
      hide Shaped, HalfSize, Cached, Head, Rows;
      ghost var rows := kv[..];
      for h := 0 to net.heads
        invariant kv[..] == rows && net.QueryAt(h) <= xb.Length && xb[..net.QueryAt(h)] == Attend(net, q, ks, vs, h)
      {
        HeadFits(net, h);
        ghost var g := HeadPass(l, h, q, ks, vs, n);
        AttendStep(net, q, ks, vs, h);
      }
      assert net.QueryAt(net.heads) == net.Dim();
      assert xb[..] == xb[..net.Dim()];
    }

    // ---- The layers ----

    method PutRow(base: nat, row: seq<R>)
      requires base + |row| <= kv.Length
      modifies kv
      ensures Put(old(kv[..]), kv[..], base, row)
    {
      ghost var was := kv[..];
      for i := 0 to |row|
        invariant kv[base..base + i] == row[..i]
        invariant forall k :: 0 <= k < kv.Length && !(base <= k < base + i) ==> kv[k] == was[k]
      {
        kv[base + i] := row[i];
      }
    }

    /** Writes the value row, then the key row, which is rotated where it lies. */
    method Fill(l: nat, x: seq<R>)
      requires Shape() && l < net.layers && pos < net.maxSeq
      modifies kv
      ensures Filled(net, old(kv[..]), kv[..], l, pos, net.Key(l, x, pos), net.value(l, x))
    {
      BaseIs(net, l, pos);
      LengthsOf(net, l, x, pos);
      hide Shaped, Base, HalfSize, Net.KvDim, Put, Filled;
      var base := Base(net, l, pos);
      ghost var was := kv[..];
      PutRow(HalfSize(net) + base, net.value(l, x));
      ghost var a := kv[..];
      ghost var b := PutKey(base, net.project(l, x));
      ThreePuts(net, was, a, b, kv[..], l, pos, net.project(l, x), net.Key(l, x, pos), net.value(l, x));
    }

    /** The key is copied into its row and rotated there. */
    method PutKey(base: nat, k: seq<R>) returns (ghost mid: seq<R>)
      requires base + |k| <= kv.Length && |net.rotate(k, pos)| == |k|
      modifies kv
      ensures Put(old(kv[..]), mid, base, k) && Put(mid, kv[..], base, net.rotate(k, pos))
    {
      hide Put;
      PutRow(base, k);
      mid := kv[..];
      RowSlice(old(kv[..]), mid, base, k);
      assert kv[base..base + |k|] == mid[base..base + |k|];
      PutRow(base, net.rotate(kv[base..base + |k|], pos));
    }

    method Layer(l: nat, x: seq<R>, ghost toks: seq<nat>) returns (y: seq<R>)
      requires Shape() && l < net.layers && pos < net.maxSeq && |toks| == pos + 1
      requires x == Inputs(net, toks, l)[pos] && Holds(net, kv[..], toks, l, pos)
      modifies kv, att, xb
      ensures y == Inputs(net, toks, l + 1)[pos]
      ensures Holds(net, kv[..], toks, l, pos + 1)
      ensures forall m: nat, n: nat :: m < net.layers && m != l && n <= |toks| && Holds(net, old(kv[..]), toks, m, n) ==>
                Holds(net, kv[..], toks, m, n)
    {
      LengthsOf(net, l, x, pos);
      hide Shaped, Holds, Inputs, Keys, Values, Attend, HalfSize, Filled, Cached, Net.Key, Net.Dim, Rows;
      var q := net.query(l, x, pos);
      ghost var was := kv[..];
      Fill(l, x);
      FilledHolds(net, was, kv[..], toks, l);
      FilledKeeps(net, was, kv[..], toks, l, pos, net.Key(l, x, pos), net.value(l, x));
      ghost var rows, xs := kv[..], Inputs(net, toks, l);
      HoldsIs(net, rows, toks, l, pos + 1);
      AttendAll(l, q, Keys(net, l, xs), Values(net, l, xs), pos + 1);
      assert kv[..] == rows;
      y := net.finish(l, x, xb[..]);
      LayerOut(net, toks, l);
    }

    /** Feeds one token: the logits are those of a causal pass over all tokens fed since the last reset. */
    method Forward(token: nat) returns (r: seq<R>)
      requires Valid() && pos < net.maxSeq
      modifies this, kv, att, xb
      ensures Valid() && tokens == old(tokens) + [token]
      ensures r == CausalForward(net, tokens)
    {
      hide Shaped, Holds, Inputs, HalfSize;
      var p, x := pos, net.embed(token);
      ghost var toks, n := tokens + [token], p + 1;
      forall l: nat | l < net.layers ensures Holds(net, kv[..], toks, l, p) {
        HoldsMore(net, kv[..], tokens, [token], l);
      }
      EmbedIs(net, toks, p);
      for l := 0 to net.layers
        invariant pos == p && x == Inputs(net, toks, l)[p]
        invariant forall m: nat :: m < l ==> Holds(net, kv[..], toks, m, n)
        invariant forall m: nat :: l <= m < net.layers ==> Holds(net, kv[..], toks, m, p)
      {
        x := Layer(l, x, toks);
      }
      r := net.logits(x);
      pos := pos + 1;
      tokens := toks;
    }

    /** Starts a new sequence by setting the position alone; the old rows stay in the buffer. */
    method Reset()
      requires Shape()
      modifies this
      ensures Valid() && tokens == [] && pos == 0
    {
      hide Shaped, HalfSize;
      pos, tokens := 0, [];
    }

    /** A prompt fed after a reset gets the cache-free result, whatever the buffer held before. */
    method Prefill(prompt: seq<nat>) returns (r: seq<R>)
      requires Shape() && 0 < |prompt| <= net.maxSeq
      modifies this, kv, att, xb
      ensures Valid() && tokens == prompt
      ensures r == CausalForward(net, prompt)
    {
      hide Shaped, Holds, HalfSize, CausalForward;
      Reset();
      r := [];
      for i := 0 to |prompt|
        invariant Valid() && tokens == prompt[..i]
        invariant i > 0 ==> r == CausalForward(net, tokens)
      {
        r := Forward(prompt[i]);
      }
      assert prompt[..|prompt|] == prompt;
    }
  }
}
