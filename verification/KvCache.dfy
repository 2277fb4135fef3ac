/**
 The transformer's key/value cache. Numbers are an arbitrary type with arbitrary operations, kept in
 the order the loops apply them; the reference is a causal forward pass over a whole prefix that
 uses no cache.
 */
module KvCache {

  const W32: nat := 0x1_0000_0000

  /**
   A network: its shape, the arithmetic, and the parts of a layer around attention. `query`
   includes the norm, the projection, the head norm and the rotation for a position; `project` is
   the key before its rotation, which is applied in the cache; `finish` is everything from the
   output projection to the end of the layer.
   */
  datatype Net<!R> = Net(
    heads: nat, kvHeads: nat, headDim: nat, layers: nat, maxSeq: nat,
    zero: R, add: (R, R) -> R, mul: (R, R) -> R, scale: R -> R, softmax: seq<R> -> seq<R>,
    embed: nat -> seq<R>,
    query: (nat, seq<R>, nat) -> seq<R>,
    project: (nat, seq<R>) -> seq<R>,
    rotate: (seq<R>, nat) -> seq<R>,
    value: (nat, seq<R>) -> seq<R>,
    finish: (nat, seq<R>, seq<R>) -> seq<R>,
    logits: seq<R> -> seq<R>)
  {
    function Dim(): nat {
      heads * headDim
    }

    function KvDim(): nat {
      kvHeads * headDim
    }

    function Key(l: nat, x: seq<R>, p: nat): seq<R> {
      rotate(project(l, x), p)
    }

    /** The key/value head that query head `h` reads. */
    function KvHead(h: nat): nat
      requires kvHeads > 0 && heads >= kvHeads
    {
      h / (heads / kvHeads)
    }

    /** Where query head `h` begins in its vector. */
    function QueryAt(h: nat): nat {
      h * headDim
    }

    /** Where the key/value head of query head `h` begins in a row. */
    function KvAt(h: nat): nat
      requires kvHeads > 0 && heads >= kvHeads
    {
      KvHead(h) * headDim
    }
  }

  /** Vectors have the lengths the buffers are laid out for, and the cache can be indexed with 32 bits. */
  ghost predicate Shaped<R(!new)>(net: Net<R>) {
    && net.kvHeads > 0 && net.heads > 0 && net.headDim > 0 && net.heads % net.kvHeads == 0
    && net.layers * net.maxSeq * net.KvDim() <= W32
    && (forall s :: |net.softmax(s)| == |s|)
    && (forall l: nat, x: seq<R>, p: nat :: |net.query(l, x, p)| == net.Dim())
    && (forall l: nat, x: seq<R> :: |net.project(l, x)| == net.KvDim())
    && (forall k: seq<R>, p: nat :: |net.rotate(k, p)| == |k|)
    && (forall l: nat, x: seq<R> :: |net.value(l, x)| == net.KvDim())
  }

  // ---- Attention over given keys and values ----

  function Dot<R>(net: Net<R>, q: seq<R>, a: nat, k: seq<R>, b: nat, n: nat): R
    requires a + n <= |q| && b + n <= |k|
  {
    if n == 0 then net.zero
    else net.add(Dot(net, q, a, k, b, n - 1), net.mul(q[a + n - 1], k[b + n - 1]))
  }

  /** The sum over the first `n` rows of weight times component `j`. */
  function Mix<R>(net: Net<R>, w: seq<R>, vs: seq<seq<R>>, j: nat, n: nat): R
    requires n <= |w| && n <= |vs| && forall u :: 0 <= u < |vs| ==> j < |vs[u]|
  {
    if n == 0 then net.zero
    else net.add(Mix(net, w, vs, j, n - 1), net.mul(w[n - 1], vs[n - 1][j]))
  }

  ghost predicate Rows<R>(net: Net<R>, rows: seq<seq<R>>) {
    forall u :: 0 <= u < |rows| ==> |rows[u]| == net.KvDim()
  }

  /** Query head `h` and its key/value head lie inside their vectors. */
  lemma HeadFits<R(!new)>(net: Net<R>, h: nat)
    requires Shaped(net) && h < net.heads
    ensures net.heads >= net.kvHeads && net.KvHead(h) < net.kvHeads
    ensures net.QueryAt(h) + net.headDim <= net.Dim() && net.QueryAt(h + 1) == net.QueryAt(h) + net.headDim
    ensures net.KvAt(h) + net.headDim <= net.KvDim()
  {
    hide Shaped;
    var n, k, d := net.heads, net.kvHeads, net.headDim;
    HeadsDivide(net);
    DivBelow(h, n / k, k);
    Slot(h, n, d);
    Slot(h / (n / k), k, d);
  }

  lemma HeadsDivide<R(!new)>(net: Net<R>)
    requires Shaped(net)
    ensures net.kvHeads > 0 && net.heads / net.kvHeads > 0 && net.heads == net.heads / net.kvHeads * net.kvHeads
    ensures net.heads >= net.kvHeads
  {
    Divides(net.heads, net.kvHeads);
  }

  lemma Divides(n: nat, k: nat)
    requires n > 0 && k > 0 && n % k == 0
    ensures n == n / k * k && n / k > 0 && n >= k
  {
    assert n == k * (n / k) + n % k;
  }

  lemma DivBelow(h: nat, rep: nat, k: nat)
    requires rep > 0 && h < rep * k
    ensures h / rep < k
  {
    var d := h / rep;
    assert d >= k ==> rep * d >= rep * k;
  }

  lemma Slot(i: nat, n: nat, d: nat)
    requires i < n
    ensures i * d + d <= n * d
  {
    assert (i + 1) * d <= n * d;
  }

  /** The score of one position for query head `h`. */
  ghost function ScoreOf<R(!new)>(net: Net<R>, q: seq<R>, k: seq<R>, h: nat): R
    requires Shaped(net) && h < net.heads && |q| == net.Dim() && |k| == net.KvDim()
  {
    HeadFits(net, h);
    net.scale(Dot(net, q, net.QueryAt(h), k, net.KvAt(h), net.headDim))
  }

  ghost function Scores<R(!new)>(net: Net<R>, q: seq<R>, ks: seq<seq<R>>, h: nat): (s: seq<R>)
    requires Shaped(net) && h < net.heads && |q| == net.Dim() && Rows(net, ks)
    ensures |s| == |ks|
  {
    seq(|ks|, u requires 0 <= u < |ks| => ScoreOf(net, q, ks[u], h))
  }

  /** Component `i` of the weighted sum of the values for query head `h`. */
  ghost function Part<R(!new)>(net: Net<R>, w: seq<R>, vs: seq<seq<R>>, h: nat, i: nat): R
    requires Shaped(net) && h < net.heads && Rows(net, vs) && |w| == |vs| && i < net.headDim
  {
    HeadFits(net, h);
    Mix(net, w, vs, net.KvAt(h) + i, |vs|)
  }

  /** The output of one head: softmax of the scores, then the weighted sum of the values. */
  ghost function Head<R(!new)>(net: Net<R>, q: seq<R>, ks: seq<seq<R>>, vs: seq<seq<R>>, h: nat): (s: seq<R>)
    requires Shaped(net) && h < net.heads && |q| == net.Dim() && Rows(net, ks) && Rows(net, vs) && |ks| == |vs|
    ensures |s| == net.headDim
  {
    var w := net.softmax(Scores(net, q, ks, h));
    seq(net.headDim, i requires 0 <= i < net.headDim => Part(net, w, vs, h, i))
  }

  /** Query heads share a key/value head in runs of `heads / kvHeads`: `g` is the run that `h` lies in. */
  ghost predicate Grouped<R(!new)>(net: Net<R>, h: nat, g: nat)
    requires net.kvHeads > 0
  {
    g < net.kvHeads && g * (net.heads / net.kvHeads) <= h < (g + 1) * (net.heads / net.kvHeads)
  }

  /** Every query head lies in one run, and that is the one it reads. */
  lemma HeadGroups<R(!new)>(net: Net<R>, h: nat, g: nat)
    requires Shaped(net) && h < net.heads
    ensures net.heads >= net.kvHeads && (Grouped(net, h, g) <==> g == net.KvHead(h))
  {
    hide Shaped;
    HeadFits(net, h);
    HeadsDivide(net);
    var rep := net.heads / net.kvHeads;
    QuotientIs(h, rep, g);
  }

  lemma QuotientIs(h: nat, rep: nat, g: nat)
    requires rep > 0
    ensures g == h / rep <==> g * rep <= h < (g + 1) * rep
  {
    var d := h / rep;
    assert h == rep * d + h % rep;
    if g < d { assert (g + 1) * rep <= d * rep; }
    if g > d { assert (d + 1) * rep <= g * rep; }
  }

  /** The attention weights of the query at `a` against the key/value head at `b` of every row. */
  ghost function Weights<R(!new)>(net: Net<R>, q: seq<R>, ks: seq<seq<R>>, a: nat, b: nat): (w: seq<R>)
    requires Shaped(net) && |q| == net.Dim() && Rows(net, ks)
    requires a + net.headDim <= net.Dim() && b + net.headDim <= net.KvDim()
    ensures |w| == |ks|
  {
    var s := seq(|ks|, u requires 0 <= u < |ks| => net.scale(Dot(net, q, a, ks[u], b, net.headDim)));
    assert |net.softmax(s)| == |s|;
    net.softmax(s)
  }

  /** Attention by index: component `i` weighs components `b + i` of the value rows. */
  ghost predicate HeadFrom<R(!new)>(net: Net<R>, w: seq<R>, vs: seq<seq<R>>, b: nat, out: seq<R>)
    requires Rows(net, vs) && |w| == |vs| && b + net.headDim <= net.KvDim()
  {
    |out| == net.headDim && forall i :: 0 <= i < net.headDim ==> out[i] == Mix(net, w, vs, b + i, |vs|)
  }

  /** Query head `h`, at `h * headDim` of its vector, reads the key/value head of its group `g`, at `g * headDim` of a row. */
  ghost predicate AttendsGroup<R(!new)>(net: Net<R>, q: seq<R>, ks: seq<seq<R>>, vs: seq<seq<R>>, h: nat, g: nat, out: seq<R>)
    requires Shaped(net) && |q| == net.Dim() && Rows(net, ks) && Rows(net, vs) && |ks| == |vs|
  {
    Grouped(net, h, g) && HeadAt(net, q, ks, vs, Offset(h, net.headDim), Offset(g, net.headDim), out)
  }

  function Offset(i: nat, d: nat): nat { i * d }

  ghost predicate HeadAt<R(!new)>(net: Net<R>, q: seq<R>, ks: seq<seq<R>>, vs: seq<seq<R>>, a: nat, b: nat, out: seq<R>)
    requires Shaped(net) && |q| == net.Dim() && Rows(net, ks) && Rows(net, vs) && |ks| == |vs|
  {
    a + net.headDim <= net.Dim() && b + net.headDim <= net.KvDim() && HeadFrom(net, Weights(net, q, ks, a, b), vs, b, out)
  }

  lemma HeadIndexed<R(!new)>(net: Net<R>, q: seq<R>, ks: seq<seq<R>>, vs: seq<seq<R>>, h: nat)
    requires Shaped(net) && h < net.heads && |q| == net.Dim() && Rows(net, ks) && Rows(net, vs) && |ks| == |vs|
    ensures net.heads >= net.kvHeads > 0 && AttendsGroup(net, q, ks, vs, h, net.KvHead(h), Head(net, q, ks, vs, h))
  {
    HeadFits(net, h);
    var g := net.KvHead(h);
    var a, b, out := h * net.headDim, g * net.headDim, Head(net, q, ks, vs, h);
    HeadGroups(net, h, g);
    hide Grouped, Net.KvHead;
    var s := seq(|ks|, u requires 0 <= u < |ks| => net.scale(Dot(net, q, a, ks[u], b, net.headDim)));
    assert s == Scores(net, q, ks, h);
    forall i | 0 <= i < net.headDim ensures out[i] == Mix(net, net.softmax(s), vs, b + i, |vs|) {
      assert out[i] == Part(net, net.softmax(s), vs, h, i);
    }
  }

  /** The outputs of the first `n` heads side by side. */
  ghost function Attend<R(!new)>(net: Net<R>, q: seq<R>, ks: seq<seq<R>>, vs: seq<seq<R>>, n: nat): (s: seq<R>)
    requires Shaped(net) && n <= net.heads && |q| == net.Dim() && Rows(net, ks) && Rows(net, vs) && |ks| == |vs|
    ensures |s| == net.QueryAt(n)
  {
    if n == 0 then [] else
      HeadFits(net, n - 1);
      Attend(net, q, ks, vs, n - 1) + Head(net, q, ks, vs, n - 1)
  }

  // ---- The reference: no cache, whole prefix ----

  ghost function Keys<R(!new)>(net: Net<R>, l: nat, xs: seq<seq<R>>): (ks: seq<seq<R>>)
    requires Shaped(net)
    ensures |ks| == |xs| && Rows(net, ks)
  {
    seq(|xs|, u requires 0 <= u < |xs| => net.Key(l, xs[u], u))
  }

  ghost function Values<R(!new)>(net: Net<R>, l: nat, xs: seq<seq<R>>): (vs: seq<seq<R>>)
    requires Shaped(net)
    ensures |vs| == |xs| && Rows(net, vs)
  {
    seq(|xs|, u requires 0 <= u < |xs| => net.value(l, xs[u]))
  }

  /** Position `t` after layer `l`: it attends to the positions up to itself. */
  ghost function Out<R(!new)>(net: Net<R>, l: nat, xs: seq<seq<R>>, t: nat): seq<R>
    requires Shaped(net) && t < |xs|
  {
    var past := xs[..t + 1];
    net.finish(l, xs[t], Attend(net, net.query(l, xs[t], t), Keys(net, l, past), Values(net, l, past), net.heads))
  }

  /** The inputs of layer `l` at every position. */
  ghost function Inputs<R(!new)>(net: Net<R>, tokens: seq<nat>, l: nat): (xs: seq<seq<R>>)
    requires Shaped(net)
    ensures |xs| == |tokens|
    decreases l
  {
    if l == 0 then seq(|tokens|, t requires 0 <= t < |tokens| => net.embed(tokens[t]))
    else
      var xs := Inputs(net, tokens, l - 1);
      seq(|tokens|, t requires 0 <= t < |tokens| => Out(net, l - 1, xs, t))
  }

  ghost function CausalForward<R(!new)>(net: Net<R>, tokens: seq<nat>): seq<R>
    requires Shaped(net) && |tokens| > 0
  {
    net.logits(Inputs(net, tokens, net.layers)[|tokens| - 1])
  }

  /** Later tokens change nothing at earlier positions. */
  lemma {:induction false} Causal<R(!new)>(net: Net<R>, tokens: seq<nat>, more: seq<nat>, l: nat)
    requires Shaped(net)
    ensures Inputs(net, tokens + more, l)[..|tokens|] == Inputs(net, tokens, l)
    decreases l
  {
    hide Out, Inputs, Shaped;
    var n, all := |tokens|, tokens + more;
    forall t | 0 <= t < n ensures Inputs(net, all, l)[t] == Inputs(net, tokens, l)[t] {
      if l == 0 {
        EmbedIs(net, all, t);
        EmbedIs(net, tokens, t);
      } else {
        Causal(net, tokens, more, l - 1);
        SameOut(net, l - 1, Inputs(net, all, l - 1), Inputs(net, tokens, l - 1), t);
        OutputIs(net, all, l, t);
        OutputIs(net, tokens, l, t);
      }
    }
  }

  lemma EmbedIs<R(!new)>(net: Net<R>, tokens: seq<nat>, t: nat)
    requires Shaped(net) && t < |tokens|
    ensures Inputs(net, tokens, 0)[t] == net.embed(tokens[t])
  {
  }

  lemma OutputIs<R(!new)>(net: Net<R>, tokens: seq<nat>, l: nat, t: nat)
    requires Shaped(net) && l > 0 && t < |tokens|
    ensures Inputs(net, tokens, l)[t] == Out(net, l - 1, Inputs(net, tokens, l - 1), t)
  {
    hide Out, Shaped;
  }

  lemma SameOut<R(!new)>(net: Net<R>, l: nat, xs: seq<seq<R>>, ys: seq<seq<R>>, t: nat)
    requires Shaped(net) && t < |ys| <= |xs| && xs[..|ys|] == ys
    ensures Out(net, l, xs, t) == Out(net, l, ys, t)
  {
    hide Attend, Keys, Values, Shaped;
    assert xs[..t + 1] == xs[..|ys|][..t + 1];
    assert xs[t] == xs[..|ys|][t];
  }
}
