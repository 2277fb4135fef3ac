/**
 What the numeric instructions compute, by opcode and without the interpreter's case analysis:
 section 4.3.2 of the WebAssembly Core Specification 1.0, except that division by zero yields 0.
 */
module WasmArith {
  import opened Leb128
  import opened WasmCode
  import opened WasmMachine

  ghost predicate Word(v: int) {
    -0x8000_0000 <= v < 0x8000_0000
  }

  /** `v` is the word congruent to `x`. */
  ghost predicate Wraps(v: int, x: int) {
    Word(v) && (v - x) % 0x1_0000_0000 == 0
  }

  /** Division that truncates: the remainder is smaller than the divisor and has the sign of the dividend. */
  ghost predicate Quotient(a: int, b: int, q: int, r: int) {
    && a == b * q + r
    && (if b < 0 then b < r < -b else -b < r < b)
    && (r == 0 || (r < 0 <==> a < 0))
  }

  /** Bit `k` of the two's complement of `x`. */
  predicate Bit(x: int, k: nat)
    decreases k
  {
    if k == 0 then x % 2 == 1 else Bit(x / 2, k - 1)
  }

  ghost predicate Truth(v: int, p: bool) {
    v == if p then 1 else 0
  }

  /** What the instruction with opcode `code` yields for the operands `a` and `b`, pushed in this order. */
  ghost predicate Means(code: byte, a: int, b: int, v: int) {
    if code == 0x46 then Truth(v, a == b)
    else if code == 0x47 then Truth(v, a != b)
    else if code == 0x48 then Truth(v, a < b)
    else if code == 0x4a then Truth(v, a > b)
    else if code == 0x4c then Truth(v, a <= b)
    else if code == 0x4e then Truth(v, a >= b)
    else if code == 0x6a then Wraps(v, a + b)
    else if code == 0x6b then Wraps(v, a - b)
    else if code == 0x6c then Wraps(v, a * b)
    else if code == 0x6d then (b == 0 && v == 0) || (b != 0 && exists r :: Quotient(a, b, v, r))
    else if code == 0x6f then (b == 0 && v == 0) || (b != 0 && exists q :: Quotient(a, b, q, v))
    else if code == 0x71 then Word(v) && forall k: nat :: k < 32 ==> (Bit(v, k) <==> Bit(a, k) && Bit(b, k))
    else code == 0x72 && Word(v) && forall k: nat :: k < 32 ==> (Bit(v, k) <==> Bit(a, k) || Bit(b, k))
  }

  /** The one case without a result: the quotient of the least word by -1. */
  ghost predicate Overflows(code: byte, a: int, b: int) {
    code in {0x6d, 0x6f} && a == -0x8000_0000 && b == -1
  }

  // ---- Division ----

  lemma TruncateIs(a: int, b: int)
    requires b != 0
    ensures Quotient(a, b, Truncate(a, b), a - b * Truncate(a, b))
  {
    var x, y, t := if a < 0 then -a else a, if b < 0 then -b else b, Truncate(a, b);
    var q := x / y;
    assert x == y * q + x % y && 0 <= x % y < y;
    assert t == if (a < 0) == (b < 0) then q else -q;
    assert b * t == if a < 0 then -(y * q) else y * q by { SignedProduct(b, y, q, t, a < 0); }
  }

  lemma SignedProduct(b: int, y: int, q: int, t: int, neg: bool)
    requires y == (if b < 0 then -b else b) && t == if neg == (b < 0) then q else -q
    ensures b * t == if neg then -(y * q) else y * q
  {
  }

  lemma SmallMultiple(y: int, d: int)
    requires y > 0 && -y < y * d < y
    ensures d == 0
  {
    assert d >= 1 ==> y * d >= y;
    assert d <= -1 ==> y * d <= -y;
  }

  lemma QuotientUnique(a: int, b: int, q: int, r: int, q': int, r': int)
    requires b != 0 && Quotient(a, b, q, r) && Quotient(a, b, q', r')
    ensures q == q' && r == r'
  {
    var d, y := q - q', if b < 0 then -b else b;
    assert b * d == r' - r;
    assert y * d == if b < 0 then r - r' else r' - r;
    SmallMultiple(y, d);
  }

  // ---- Bits ----

  lemma {:induction false} AndBits(x: nat, y: nat, k: nat)
    ensures Bit(And(x, y), k) <==> Bit(x, k) && Bit(y, k)
    decreases k
  {
    if x == 0 || y == 0 {
      ZeroBits(k);
    } else {
      assert And(x, y) / 2 == And(x / 2, y / 2);
      if k > 0 { AndBits(x / 2, y / 2, k - 1); }
    }
  }

  lemma {:induction false} OrBits(x: nat, y: nat, k: nat)
    ensures Bit(Or(x, y), k) <==> Bit(x, k) || Bit(y, k)
    decreases k
  {
    if x != 0 || y != 0 {
      assert Or(x, y) / 2 == Or(x / 2, y / 2);
      if k > 0 { OrBits(x / 2, y / 2, k - 1); }
    } else {
      ZeroBits(k);
    }
  }

  lemma {:induction false} ZeroBits(k: nat)
    ensures !Bit(0, k)
  {
    if k > 0 { ZeroBits(k - 1); }
  }

  /** Adding a multiple of 2^n leaves the lower bits alone. */
  lemma {:induction false} BitShift(x: int, m: int, n: nat, k: nat)
    requires k < n
    ensures Bit(x + m * Pow2(n), k) <==> Bit(x, k)
    decreases k
  {
    var p := m * Pow2(n - 1);
    assert m * Pow2(n) == 2 * p;
    assert (x + 2 * p) / 2 == x / 2 + p && (x + 2 * p) % 2 == x % 2;
    if k > 0 { BitShift(x / 2, m, n - 1, k - 1); }
  }

  lemma PowWord()
    ensures Pow2(32) == WORD
  {
    assert Pow2(8) == 256 by { assert Pow2(4) == 16; }
    assert Pow2(16) == 65536 by { assert Pow2(12) == 4096; }
    assert Pow2(24) == 16777216 by { assert Pow2(20) == 1048576; }
    assert Pow2(28) == 268435456;
  }

  lemma WordBits(x: int, k: nat)
    requires k < 32
    ensures Bit(x % WORD, k) <==> Bit(x, k)
    ensures Bit(ToSigned(x), k) <==> Bit(x, k)
  {
    PowWord();
    var u := x % WORD;
    assert x == u + (x / WORD) * Pow2(32);
    BitShift(u, x / WORD, 32, k);
    BitShift(ToSigned(x), 1, 32, k);
  }

  /** The lower bits determine the remainder. */
  lemma {:induction false} SameBits(x: int, y: int, n: nat)
    requires forall k: nat :: k < n ==> (Bit(x, k) <==> Bit(y, k))
    ensures (x - y) % Pow2(n) == 0
    decreases n
  {
    if n > 0 {
      assert Bit(x, 0) <==> Bit(y, 0);
      forall k: nat | k < n - 1 ensures Bit(x / 2, k) <==> Bit(y / 2, k) {
        assert Bit(x, k + 1) <==> Bit(y, k + 1);
      }
      SameBits(x / 2, y / 2, n - 1);
      var p := Pow2(n - 1);
      var m := (x / 2 - y / 2) / p;
      assert x / 2 - y / 2 == p * m;
      assert x - y == 2 * (x / 2 - y / 2) == Pow2(n) * m;
      MultipleZero(Pow2(n), m);
    }
  }

  lemma MultipleZero(p: nat, m: int)
    requires p > 0
    ensures (p * m) % p == 0
  {
    var x := p * m;
    assert x == p * (x / p) + x % p;
    assert p * (m - x / p) == x % p;
    SmallMultiple(p, m - x / p);
  }

  // ---- The instructions ----

  lemma DivMeans(op: BinOp, a: int, b: int)
    requires Word(a) && Word(b) && (op.DivS? || op.RemS?) && !Overflows(Opcode(op), a, b)
    ensures Alu(op, a, b).Some? && Means(Opcode(op), a, b, Alu(op, a, b).value) && Word(Alu(op, a, b).value)
  {
    if b != 0 {
      var q := Truncate(a, b);
      TruncateIs(a, b);
      QuotientWord(a, b, q, a - b * q);
      hide Truncate, Quotient;
      assert Alu(op, a, b) == Some(if op.DivS? then q else a - b * q);
    }
  }

  lemma Wrapped(x: int)
    ensures Wraps(ToSigned(x), x)
  {
  }

  lemma BitMeans(op: BinOp, a: int, b: int)
    requires op.AndB? || op.OrB?
    ensures Alu(op, a, b).Some? && Means(Opcode(op), a, b, Alu(op, a, b).value)
  {
    var x, y := a % WORD, b % WORD;
    var u := if op.AndB? then And(x, y) else Or(x, y);
    var v := ToSigned(u);
    assert Alu(op, a, b) == Some(v);
    hide And, Or, Bit, ToSigned;
    forall k: nat | k < 32 ensures Bit(v, k) <==> if op.AndB? then Bit(a, k) && Bit(b, k) else Bit(a, k) || Bit(b, k) {
      WordBits(a, k);
      WordBits(b, k);
      WordBits(u, k);
      AndBits(x, y, k);
      OrBits(x, y, k);
    }
  }

  /** The result of every numeric instruction is the one its opcode stands for; it lacks one only on overflow. */
  lemma AluMeans(op: BinOp, a: int, b: int)
    requires Word(a) && Word(b)
    ensures Alu(op, a, b).None? <==> Overflows(Opcode(op), a, b)
    ensures Alu(op, a, b).Some? ==> Means(Opcode(op), a, b, Alu(op, a, b).value) && Word(Alu(op, a, b).value)
  {
    hide And, Or, Bit, Truncate, Quotient, ToSigned, Wraps;
    if op.Add? || op.Sub? || op.Mul? {
      Wrapped(if op.Add? then a + b else if op.Sub? then a - b else a * b);
    } else if op.DivS? || op.RemS? {
      if !Overflows(Opcode(op), a, b) {
        hide Means;
        DivMeans(op, a, b);
      }
    } else if op.AndB? || op.OrB? {
      BitMeans(op, a, b);
      hide Means;
    }
  }

  lemma QuotientWord(a: int, b: int, q: int, r: int)
    requires Word(a) && Word(b) && b != 0 && Quotient(a, b, q, r) && !(a == -0x8000_0000 && b == -1)
    ensures Word(q) && Word(r)
  {
    var y, t := if b < 0 then -b else b, if b < 0 then -q else q;
    assert y * t == a - r;
    if y >= 2 {
      Halved(y, t);
    }
  }

  lemma Halved(y: int, t: int)
    requires y >= 2 && -0x8000_0000 <= y * t <= 0x8000_0000
    ensures -0x8000_0000 < t < 0x8000_0000
  {
    assert t >= 0 ==> (y - 2) * t >= 0;
    assert t < 0 ==> (y - 2) * t <= 0;
    assert y * t == (y - 2) * t + 2 * t;
  }

  lemma WrapsUnique(v: int, w: int, x: int)
    requires Wraps(v, x) && Wraps(w, x)
    ensures v == w
  {
    var i, j := (v - x) / WORD, (w - x) / WORD;
    assert v - w == WORD * (i - j);
    SmallMultiple(WORD, i - j);
  }

  lemma SameWord(v: int, w: int)
    requires Word(v) && Word(w) && forall k: nat :: k < 32 ==> (Bit(v, k) <==> Bit(w, k))
    ensures v == w
  {
    PowWord();
    SameBits(v, w, 32);
    WrapsUnique(v, w, w);
  }

  /** There is only one such result. */
  lemma MeansUnique(code: byte, a: int, b: int, v: int, w: int)
    requires Means(code, a, b, v) && Means(code, a, b, w)
    ensures v == w
  {
    hide Quotient, Bit, Wraps;
    if code == 0x6d && b != 0 {
      var r :| Quotient(a, b, v, r);
      var r' :| Quotient(a, b, w, r');
      QuotientUnique(a, b, v, r, w, r');
    } else if code == 0x6f && b != 0 {
      var q :| Quotient(a, b, q, v);
      var q' :| Quotient(a, b, q', w);
      QuotientUnique(a, b, q, v, q', w);
    } else if code == 0x71 || code == 0x72 {
      SameWord(v, w);
    } else if code in {0x6a, 0x6b, 0x6c} {
      var x := if code == 0x6a then a + b else if code == 0x6b then a - b else a * b;
      WrapsUnique(v, w, x);
    }
  }

  // ---- The stack, the locals and the branches ----

  /** The same to the program: values above the top do not matter. */
  ghost predicate Alike(m: Mem, m': Mem) {
    m'.sp == m.sp && m'.stack[..m.sp] == m.stack[..m.sp] && m'.locals == m.locals && m'.count == m.count
  }

  /** A value pushed can be dropped, tested, stored in a local and fetched from it; `tee` is `set` followed by `get`. */
  lemma StackLaws(m: Mem, v: int, i: nat)
    requires m.sp < STACK && i < m.count && i < LOCALS
    ensures var p := Apply(Const(v), m).value;
      && Top(p) == v && Alike(m, Apply(Drop, p).value)
      && Alike(p.(stack := p.stack[m.sp := if v == 0 then 1 else 0]), Apply(Eqz, p).value)
      && Alike(m.(locals := m.locals[i := v]), Apply(Set(i), p).value)
      && Alike(Apply(Get(i), Apply(Set(i), p).value).value, Apply(Tee(i), p).value)
      && Top(Apply(Get(i), Apply(Set(i), p).value).value) == v
      && (forall j :: 0 <= j < LOCALS && j != i ==> Apply(Set(i), p).value.locals[j] == m.locals[j])
  {
  }

  /** The parameters of a call are the topmost values, the first one deepest; the rest of the locals are 0. */
  lemma CallBinds<C>(md: Module<C>, f: nat, m: Mem, fn: Func<C>, i: nat)
    requires SigOf(md, f).Some? && SigOf(md, f).value.params <= m.sp && i < LOCALS
    ensures Args(md, f, m).Some?
    ensures var n := SigOf(md, f).value.params;
      Entry(fn, Args(md, f, m).value.1, m.stack, m.sp - n).locals[i] == if i < n then m.stack[m.sp - n + i] else 0
  {
  }

  /** After the call they are gone and the result stands in their place. */
  lemma CallReturns(m: Mem, sig: Sig, stack: Stack, v: int)
    requires sig.params <= m.sp && stack[..m.sp - sig.params] == m.stack[..m.sp - sig.params] && m.sp - sig.params < STACK
    ensures var m' := Back(m, sig, stack, v);
      && m'.sp == m.sp - sig.params + (if sig.result then 1 else 0) && m'.locals == m.locals
      && m'.stack[..m.sp - sig.params] == m.stack[..m.sp - sig.params] && (sig.result ==> Top(m') == v)
  {
  }

  /** A branch out of a block goes on behind it; a branch to a loop runs the loop again. Both cut the stack back. */
  lemma BranchLaws(md: Module<Code>, fp: nat, n: nat, bt: byte, body: Code, m: Mem, k: nat)
    requires n < DEPTH
    ensures var o := EvalC(md, fp, n + 1, body, m, k);
      && (o.Next? ==> EvalI(md, fp, n, Block(bt, body), m, k) == o && EvalI(md, fp, n, Loop(bt, body), m, k) == o)
      && (o.Jump? && o.d == 0 ==>
            && EvalI(md, fp, n, Block(bt, body), m, k) == Next(o.m.(sp := m.sp))
            && (k > 0 ==>
                  EvalI(md, fp, n, Loop(bt, body), m, k) == EvalI(md, fp, n, Loop(bt, body), o.m.(sp := m.sp), k - 1)))
      && (o.Jump? && o.d > 0 ==>
            && EvalI(md, fp, n, Block(bt, body), m, k) == Jump(o.d - 1, o.m)
            && EvalI(md, fp, n, Loop(bt, body), m, k) == Jump(o.d - 1, o.m))
  {
  }
}
