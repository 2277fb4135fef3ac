/**
 The byte-pair tokenizer: text is split into bytes, then each merge rule rewrites the token array in
 place. Decoding gives the text back when every rule preserves spelling.
 */
module Bpe {

  datatype Merge = Merge(left: nat, right: nat, result: nat)

  /** The string of a token; ids beyond the vocabulary spell nothing. */
  function Spell(vocab: seq<seq<nat>>, id: nat): seq<nat> {
    if id < |vocab| then vocab[id] else []
  }

  function Spelling(vocab: seq<seq<nat>>, ts: seq<nat>): seq<nat> {
    if ts == [] then [] else Spell(vocab, ts[0]) + Spelling(vocab, ts[1..])
  }

  /** One rule applied from the left; a result may take part in the next match. */
  function Pass(ts: seq<nat>, m: Merge): (r: seq<nat>)
    ensures |r| <= |ts|
    decreases |ts|
  {
    if |ts| < 2 then ts
    else if ts[0] == m.left && ts[1] == m.right then Pass([m.result] + ts[2..], m)
    else [ts[0]] + Pass(ts[1..], m)
  }

  /** The rules applied one after the other. */
  function Passes(ts: seq<nat>, ms: seq<Merge>): (r: seq<nat>)
    ensures |r| <= |ts|
    decreases |ms|
  {
    if ms == [] then ts else Passes(Pass(ts, ms[0]), ms[1..])
  }

  // ---- What a pass and a run of passes are ----

  /** Up to its first match a pass changes nothing; the result then takes part in what follows. */
  lemma {:induction false} PassLeftmost(ts: seq<nat>, m: Merge, i: nat)
    requires i + 1 < |ts| && ts[i] == m.left && ts[i + 1] == m.right && NoPair(ts[..i + 1], m)
    ensures Pass(ts, m) == ts[..i] + Pass([m.result] + ts[i + 2..], m)
    decreases i
  {
    if i > 0 {
      var rest := ts[1..];
      assert !(ts[..i + 1][0] == m.left && ts[..i + 1][1] == m.right);
      NoPairTail(ts[..i + 1], m);
      assert rest[..i] == ts[..i + 1][1..] && rest[i + 1..] == ts[i + 2..];
      PassLeftmost(rest, m, i - 1);
      assert ts[..i] == [ts[0]] + rest[..i - 1];
    }
  }

  /** Without a match it changes nothing at all. */
  lemma {:induction false} PassNone(ts: seq<nat>, m: Merge)
    requires NoPair(ts, m)
    ensures Pass(ts, m) == ts
    decreases |ts|
  {
    if |ts| >= 2 {
      NoPairTail(ts, m);
      PassNone(ts[1..], m);
    }
  }

  lemma NoPairTail(ts: seq<nat>, m: Merge)
    requires |ts| > 0 && NoPair(ts, m)
    ensures NoPair(ts[1..], m)
  {
    var r := ts[1..];
    forall i, j | 0 <= i < |r| && 0 <= j < |r| && j == i + 1 ensures !(r[i] == m.left && r[j] == m.right) {
      assert ts[i + 1] == r[i] && ts[j + 1] == r[j];
    }
  }

  /** The rules before come first. */
  lemma {:induction false} PassesConcat(ts: seq<nat>, a: seq<Merge>, b: seq<Merge>)
    ensures Passes(ts, a + b) == Passes(Passes(ts, a), b)
    decreases |a|
  {
    if a == [] {
      assert a + b == b;
    } else {
      assert (a + b)[0] == a[0] && (a + b)[1..] == a[1..] + b;
      PassesConcat(Pass(ts, a[0]), a[1..], b);
    }
  }

  lemma PassesOne(ts: seq<nat>, m: Merge)
    ensures Passes(ts, [m]) == Pass(ts, m) && Passes(ts, []) == ts
  {
    assert [m][1..] == [];
  }

  /** The token lists between the rules: rule `k` rewrites list `k` into list `k + 1`. */
  ghost predicate Chain(lists: seq<seq<nat>>, ms: seq<Merge>) {
    |lists| == |ms| + 1 && forall k :: 0 <= k < |ms| ==> Pass(lists[k], ms[k]) == lists[k + 1]
  }

  /** There is one such chain from a given list, and it ends in all the passes. */
  lemma {:induction false} ChainEnds(lists: seq<seq<nat>>, ms: seq<Merge>)
    requires Chain(lists, ms)
    ensures lists[|ms|] == Passes(lists[0], ms)
    decreases |ms|
  {
    hide Pass;
    if ms != [] {
      var k := |ms| - 1;
      ChainEnds(lists[..k + 1], ms[..k]);
      assert ms == ms[..k] + [ms[k]];
      PassesConcat(lists[0], ms[..k], [ms[k]]);
      PassesOne(lists[k], ms[k]);
    }
  }

  // ---- Spelling is kept ----

  lemma SpellingFirst(vocab: seq<seq<nat>>, t: nat, ts: seq<nat>)
    ensures Spelling(vocab, [t] + ts) == Spell(vocab, t) + Spelling(vocab, ts)
  {
    assert ([t] + ts)[1..] == ts;
  }

  lemma {:induction false} SpellingConcat(vocab: seq<seq<nat>>, a: seq<nat>, b: seq<nat>)
    ensures Spelling(vocab, a + b) == Spelling(vocab, a) + Spelling(vocab, b)
    decreases |a|
  {
    hide Spelling, Spell;
    if a == [] {
      assert a + b == b;
      SpellingNone(vocab);
    } else {
      var x, rest := a[0], a[1..];
      SpellingConcat(vocab, rest, b);
      assert a == [x] + rest && a + b == [x] + (rest + b);
      SpellingFirst(vocab, x, rest + b);
      SpellingFirst(vocab, x, rest);
    }
  }

  lemma SpellingNone(vocab: seq<seq<nat>>)
    ensures Spelling(vocab, []) == []
  {
  }

  lemma SpellingOne(vocab: seq<seq<nat>>, t: nat)
    ensures Spelling(vocab, [t]) == Spell(vocab, t)
  {
  }

  /** The result of a rule spells its left side followed by its right side. */
  predicate Spells(vocab: seq<seq<nat>>, m: Merge) {
    Spell(vocab, m.result) == Spell(vocab, m.left) + Spell(vocab, m.right)
  }

  lemma SpellingPair(vocab: seq<seq<nat>>, ts: seq<nat>)
    requires |ts| >= 2
    ensures Spelling(vocab, ts) == Spell(vocab, ts[0]) + Spell(vocab, ts[1]) + Spelling(vocab, ts[2..])
  {
    assert ts[1..][1..] == ts[2..];
  }

  lemma {:induction false} PassSpelling(vocab: seq<seq<nat>>, ts: seq<nat>, m: Merge)
    requires Spells(vocab, m)
    ensures Spelling(vocab, Pass(ts, m)) == Spelling(vocab, ts)
    decreases |ts|
  {
    hide Spelling, Spell;
    if |ts| < 2 {
    } else if ts[0] == m.left && ts[1] == m.right {
      PassSpelling(vocab, [m.result] + ts[2..], m);
      SpellingFirst(vocab, m.result, ts[2..]);
      SpellingPair(vocab, ts);
    } else {
      PassSpelling(vocab, ts[1..], m);
      SpellingFirst(vocab, ts[0], Pass(ts[1..], m));
      SpellingFirst(vocab, ts[0], ts[1..]);
      assert ts == [ts[0]] + ts[1..];
    }
  }

  lemma {:induction false} PassesSpelling(vocab: seq<seq<nat>>, ts: seq<nat>, ms: seq<Merge>)
    requires forall k :: 0 <= k < |ms| ==> Spells(vocab, ms[k])
    ensures Spelling(vocab, Passes(ts, ms)) == Spelling(vocab, ts)
    decreases |ms|
  {
    if ms != [] {
      PassSpelling(vocab, ts, ms[0]);
      PassesSpelling(vocab, Pass(ts, ms[0]), ms[1..]);
    }
  }

  lemma {:induction false} BytesSpelling(vocab: seq<seq<nat>>, text: seq<nat>)
    requires forall k :: 0 <= k < |text| ==> Spell(vocab, text[k]) == [text[k]]
    ensures Spelling(vocab, text) == text
    decreases |text|
  {
    if text != [] {
      BytesSpelling(vocab, text[1..]);
      assert text == [text[0]] + text[1..];
    }
  }

  /** The tokens a text is encoded to spell the text. */
  lemma EncodedSpells(vocab: seq<seq<nat>>, text: seq<nat>, ms: seq<Merge>)
    requires forall k :: 0 <= k < |text| ==> Spell(vocab, text[k]) == [text[k]]
    requires forall k :: 0 <= k < |ms| ==> Spells(vocab, ms[k])
    ensures Spelling(vocab, Passes(text, ms)) == text
  {
    PassesSpelling(vocab, text, ms);
    BytesSpelling(vocab, text);
  }

  // ---- When a rule leaves no match behind ----

  ghost predicate NoPair(ts: seq<nat>, m: Merge) {
    forall i, j :: 0 <= i < |ts| && 0 <= j < |ts| && j == i + 1 ==> !(ts[i] == m.left && ts[j] == m.right)
  }

  /** A pass keeps the first token, or it was a left side and became the result. */
  lemma {:induction false} PassFirst(ts: seq<nat>, m: Merge)
    requires |ts| > 0
    ensures |Pass(ts, m)| > 0
    ensures Pass(ts, m)[0] == ts[0] || (ts[0] == m.left && Pass(ts, m)[0] == m.result)
    decreases |ts|
  {
    if |ts| >= 2 && ts[0] == m.left && ts[1] == m.right {
      PassFirst([m.result] + ts[2..], m);
    }
  }

  lemma NoPairCons(t: nat, ts: seq<nat>, m: Merge)
    requires NoPair(ts, m) && (|ts| > 0 ==> !(t == m.left && ts[0] == m.right))
    ensures NoPair([t] + ts, m)
  {
    var r := [t] + ts;
    forall i, j | 0 <= i < |r| && 0 <= j < |r| && j == i + 1 ensures !(r[i] == m.left && r[j] == m.right) {
      if i > 0 {
        var p := i - 1;
        assert !(ts[p] == m.left && ts[i] == m.right);
      }
    }
  }

  lemma {:induction false} PassNoPair(ts: seq<nat>, m: Merge)
    requires m.result != m.right || m.left == m.right
    ensures NoPair(Pass(ts, m), m)
    decreases |ts|
  {
    if |ts| < 2 {
    } else if ts[0] == m.left && ts[1] == m.right {
      PassNoPair([m.result] + ts[2..], m);
    } else {
      PassNoPair(ts[1..], m);
      PassFirst(ts[1..], m);
      NoPairCons(ts[0], Pass(ts[1..], m), m);
    }
  }

  /** `left left right` with result `right` is the pattern that leaves a match behind. */
  lemma PairLeft(m: Merge)
    requires m.result == m.right && m.left != m.right
    ensures Pass([m.left, m.left, m.right], m) == [m.left, m.right]
    ensures !NoPair([m.left, m.right], m)
  {
    var ts := [m.left, m.left, m.right];
    assert ts[1..] == [m.left, m.right];
    assert [m.result] + ts[1..][2..] == [m.right];
    assert Pass(ts[1..], m) == Pass([m.right], m);
    var r := [m.left, m.right];
    assert r[0] == m.left && r[1] == m.right;
  }

  /** No text keeps a match of a rule after the rule's pass exactly when the result is not the right side alone. */
  lemma PassComplete(m: Merge)
    ensures (forall ts :: NoPair(Pass(ts, m), m)) <==> m.result != m.right || m.left == m.right
  {
    if m.result != m.right || m.left == m.right {
      forall ts ensures NoPair(Pass(ts, m), m) {
        PassNoPair(ts, m);
      }
    } else {
      PairLeft(m);
    }
  }

  /** A rule that preserves spelling, with a left side that spells something, leaves no match. */
  lemma SpellingComplete(vocab: seq<seq<nat>>, m: Merge, ts: seq<nat>)
    requires Spells(vocab, m) && Spell(vocab, m.left) != []
    ensures NoPair(Pass(ts, m), m)
  {
    assert m.result != m.right by {
      assert |Spell(vocab, m.result)| == |Spell(vocab, m.left)| + |Spell(vocab, m.right)|;
    }
    PassNoPair(ts, m);
  }

  // ---- Encoding in place ----

  /** Moves the tokens behind `from` one place to the left. */
  method Shift(a: array<nat>, from: nat, n: nat)
    requires from < n <= a.Length
    modifies a
    ensures a[..n - 1] == old(a[..from]) + old(a[from + 1..n])
  {
    ghost var was := a[..];
    var j := from;
    while j + 1 < n
      invariant from <= j < n && a[..j] == was[..from] + was[from + 1..j + 1] && a[j..] == was[j..]
      decreases n - j
    {
      assert a[j..][1] == a[j + 1];
      a[j] := a[j + 1];
      j := j + 1;
    }
  }

  lemma PassMerge(done: seq<nat>, rest: seq<nat>, m: Merge)
    requires |rest| >= 2 && rest[0] == m.left && rest[1] == m.right
    ensures done + Pass(rest, m) == done + Pass([m.result] + rest[2..], m)
  {
  }

  lemma PassMove(done: seq<nat>, rest: seq<nat>, m: Merge)
    requires |rest| >= 2 && !(rest[0] == m.left && rest[1] == m.right)
    ensures done + Pass(rest, m) == (done + [rest[0]]) + Pass(rest[1..], m)
  {
  }

  lemma PassEnd(done: seq<nat>, rest: seq<nat>, m: Merge)
    requires |rest| < 2
    ensures done + Pass(rest, m) == done + rest
  {
  }

  /** Puts `result` in place of the tokens at `i` and `i + 1`. */
  method Collapse(a: array<nat>, i: nat, n: nat, result: nat)
    requires i + 1 < n <= a.Length
    modifies a
    ensures a[..i] == old(a[..i]) && a[i..n - 1] == [result] + old(a[i..n])[2..]
  {
    ghost var was := a[..];
    a[i] := result;
    Shift(a, i + 1, n);
    ghost var now := a[..n - 1];
    assert now == was[..i] + [result] + was[i + 2..n];
    assert now[..i] == a[..i] && now[i..] == a[i..n - 1];
    assert was[i..n][2..] == was[i + 2..n];
  }

  /** One rule in place is one pass. */
  method ApplyMerge(a: array<nat>, m: Merge, len: nat) returns (n: nat)
    requires len <= a.Length
    modifies a
    ensures n <= len && a[..n] == Pass(old(a[..len]), m)
  {
    hide Pass;
    n := len;
    var i := 0;
    ghost var all := Pass(a[..len], m);
    assert a[0..n] == a[..n];
    while i + 1 < n
      invariant 0 <= i <= n <= len && (n > 0 ==> i < n)
      invariant a[..i] + Pass(a[i..n], m) == all
      decreases n - i
    {
      ghost var done, rest := a[..i], a[i..n];
      if a[i] == m.left && a[i + 1] == m.right {
        PassMerge(done, rest, m);
        Collapse(a, i, n, m.result);
        n := n - 1;
      } else {
        PassMove(done, rest, m);
        assert rest[1..] == a[i + 1..n] && a[..i + 1] == done + [a[i]];
        i := i + 1;
      }
    }
    PassEnd(a[..i], a[i..n], m);
    assert a[..n] == a[..i] + a[i..n];
  }

  function Least(a: nat, b: nat): nat {
    if a < b then a else b
  }

  /** The tokens of as much of the text as fits: split into bytes, then every rule in order. */
  method Encode(ms: seq<Merge>, text: seq<nat>, a: array<nat>) returns (n: nat, ghost lists: seq<seq<nat>>)
    modifies a
    ensures n <= a.Length && a[..n] == Passes(text[..Least(|text|, a.Length)], ms)
    ensures Chain(lists, ms) && lists[0] == text[..Least(|text|, a.Length)] && lists[|ms|] == a[..n]
  {
    hide Pass, Passes;
    n := 0;
    var i := 0;
    while i < |text| && n < a.Length
      invariant 0 <= i == n <= Least(|text|, a.Length) && a[..n] == text[..n]
    {
      a[n] := text[i];
      n := n + 1;
      i := i + 1;
    }
    lists := [a[..n]];
    for k := 0 to |ms|
      invariant n <= a.Length && Chain(lists, ms[..k]) && lists[k] == a[..n] && lists[0] == text[..Least(|text|, a.Length)]
    {
      n := ApplyMerge(a, ms[k], n);
      lists := lists + [a[..n]];
    }
    assert ms[..|ms|] == ms;
    ChainEnds(lists, ms);
  }

  /**
   Writes the spelling of the longest run of tokens that leaves room for the final zero; ids beyond
   the vocabulary are skipped.
   */
  method Decode(vocab: seq<seq<nat>>, ts: seq<nat>, out: array<nat>) returns (pos: nat, ghost k: nat)
    requires out.Length > 0
    modifies out
    ensures k <= |ts| && pos < out.Length && out[pos] == 0
    ensures out[..pos] == Spelling(vocab, ts[..k])
    ensures k < |ts| ==> pos + |Spell(vocab, ts[k])| >= out.Length
  {
    pos, k := 0, 0;
    for i := 0 to |ts|
      invariant k == i && pos < out.Length && out[..pos] == Spelling(vocab, ts[..i])
    {
      SpellingLast(vocab, ts, i);
      var id := ts[i];
      if id >= |vocab| {
        k := k + 1;
        continue;
      }
      var len := |vocab[id]|;
      if pos + len >= out.Length {
        break;
      }
      ghost var was := out[..pos];
      Memcpy(out, pos, vocab[id]);
      assert out[..pos + len] == was + vocab[id];
      pos := pos + len;
      k := k + 1;
    }
    assert k == |ts| ==> ts[..k] == ts;
    out[pos] := 0;
  }

  lemma SpellingLast(vocab: seq<seq<nat>>, ts: seq<nat>, i: nat)
    requires i < |ts|
    ensures Spelling(vocab, ts[..i + 1]) == Spelling(vocab, ts[..i]) + Spell(vocab, ts[i])
  {
    assert ts[..i + 1] == ts[..i] + [ts[i]];
    SpellingConcat(vocab, ts[..i], [ts[i]]);
    SpellingOne(vocab, ts[i]);
  }

  method Memcpy(out: array<nat>, pos: nat, s: seq<nat>)
    requires pos + |s| <= out.Length
    modifies out
    ensures out[..pos + |s|] == old(out[..pos]) + s
  {
    ghost var was := out[..pos];
    for i := 0 to |s|
      invariant out[..pos + i] == was + s[..i]
    {
      out[pos + i] := s[i];
    }
  }

  /** A prefix of the tokens spells a prefix of the text, so all tokens fit if the text does. */
  lemma {:induction false} SpellingPrefix(vocab: seq<seq<nat>>, ts: seq<nat>, k: nat)
    requires k < |ts|
    ensures |Spelling(vocab, ts[..k])| + |Spell(vocab, ts[k])| <= |Spelling(vocab, ts)|
  {
    SpellingLast(vocab, ts, k);
    assert ts == ts[..k + 1] + ts[k + 1..];
    SpellingConcat(vocab, ts[..k + 1], ts[k + 1..]);
  }

  /** Encoding and decoding a text that fits both buffers gives the text back. */
  method RoundTrip(vocab: seq<seq<nat>>, ms: seq<Merge>, text: seq<nat>, a: array<nat>, out: array<nat>) returns (n: nat)
    requires forall k :: 0 <= k < |text| ==> Spell(vocab, text[k]) == [text[k]]
    requires forall k :: 0 <= k < |ms| ==> Spells(vocab, ms[k])
    requires |text| <= a.Length && |text| < out.Length && a != out
    modifies a, out
    ensures n == |text| && out[..n] == text && out[n] == 0
  {
    hide Spells, Pass, Passes, Spelling, Spell;
    var len, lists := Encode(ms, text, a);
    ghost var ts := a[..len];
    assert text[..Least(|text|, a.Length)] == text;
    EncodedSpells(vocab, text, ms);
    ghost var k;
    n, k := Decode(vocab, a[..len], out);
    if k < |ts| {
      SpellingPrefix(vocab, ts, k);
    }
    assert ts[..k] == ts;
  }
}
