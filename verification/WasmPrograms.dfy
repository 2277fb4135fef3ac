/**
 The test module that the generator writes, run by the interpreter: `add`, `fib` and `hello`. Calls
 nested deeper than the frame array return 0 without a call, which `fib` does not notice.
 */
module WasmPrograms {
  import opened Leb128
  import opened WasmCode
  import opened WasmMachine
  import opened WasmArith
  import opened WasmSim

  // ---- Functions of two operands, as bytes ----

  predicate Numeric(code: byte) {
    code in {0x46, 0x47, 0x48, 0x4a, 0x4c, 0x4e, 0x6a, 0x6b, 0x6c, 0x6d, 0x6f, 0x71, 0x72}
  }

  /** `local.get 0`, `local.get 1`, the instruction, `end`. */
  function TwoOperands(code: byte): seq<byte> {
    [0x20, 0x00, 0x20, 0x01, code, 0x0b]
  }

  lemma NumericOp(code: byte) returns (op: BinOp)
    requires Numeric(code)
    ensures Opcode(op) == code && Short(code) == TPlain(Bin(op)) && !HasIndex(code) && !Opens(code)
  {
    match BinOf(code)
    case TPlain(Bin(b)) => op := b;
    case _ => op := Eq;
  }

  lemma GetFetch(bs: seq<byte>, pc: nat)
    requires pc + 1 < |bs| && bs[pc] == 0x20 && bs[pc + 1] < 2
    ensures Fetch(bs, pc) == (TPlain(Get(bs[pc + 1])), pc + 2)
  {
    var i := bs[pc + 1];
    assert Group(i, 0) == i;
    assert Or(0, i) == i;
  }

  /** Where the two operands and the instruction have been run. */
  lemma TwoRun(mb: Module<seq<byte>>, fp: nat, code: byte, op: BinOp, m: Mem, fuel: nat)
    requires Numeric(code) && Opcode(op) == code && Short(code) == TPlain(Bin(op)) && !HasIndex(code) && !Opens(code)
    requires m.sp + 2 <= STACK && m.count >= 2 && fuel >= 4
    ensures var r := Exec(mb, fp, TwoOperands(code), Frame(0, m, []), fuel);
      match Alu(op, m.locals[0], m.locals[1])
      case None => r == Fault
      case Some(v) => r.Ret? && r.v == v && r.left == fuel - 4
  {
    hide Exec, Alu, Fetch, DecU;
    var bs := TwoOperands(code);
    var m1 := Push(m, m.locals[0]);
    var m2 := Push(m1, m.locals[1]);
    GetFetch(bs, 0);
    Turns(mb, fp, bs, Frame(0, m, []), TPlain(Get(0)), 2, fuel - 1);
    GetFetch(bs, 2);
    Turns(mb, fp, bs, Frame(2, m1, []), TPlain(Get(1)), 4, fuel - 2);
    FetchShort(bs, 4, code);
    Turns(mb, fp, bs, Frame(4, m2, []), TPlain(Bin(op)), 5, fuel - 3);
    if Alu(op, m.locals[0], m.locals[1]).Some? {
      FetchShort(bs, 5, 0x0b);
      var m3 := Apply(Bin(op), m2).value;
      Turns(mb, fp, bs, Frame(5, m3, []), TEnd, 6, fuel - 4);
    }
  }

  /**
   A function whose body is two `local.get`s and one instruction computes what the opcode stands for,
   of its first and second argument, in four turns; it faults exactly on overflow.
   */
  lemma TwoOperandsMean(mb: Module<seq<byte>>, fp: nat, fi: nat, code: byte, args: seq<int>, stack: Stack, sp: Sp, fuel: nat)
    requires Numeric(code) && fp < CALLS && |mb.imports| <= fi < |mb.imports| + |mb.funcs|
    requires mb.funcs[fi - |mb.imports|].code == TwoOperands(code) && mb.funcs[fi - |mb.imports|].count >= 2
    requires |args| >= 2 && Word(args[0]) && Word(args[1]) && sp + 2 <= STACK && fuel >= 4
    ensures var r := CallFn(mb, fp, fi, args, stack, sp, fuel);
      if Overflows(code, args[0], args[1]) then r == Fault
      else r.Ret? && r.left == fuel - 4 && Means(code, args[0], args[1], r.v)
  {
    hide Exec, Alu, Means, Overflows, Opcode, Short, HasIndex, Opens, TwoOperands;
    var op := NumericOp(code);
    var fn := mb.funcs[fi - |mb.imports|];
    var m := Entry(fn, args, stack, sp);
    assert m.locals[0] == args[0] && m.locals[1] == args[1];
    TwoRun(mb, fp + 1, code, op, m, fuel);
    AluMeans(op, args[0], args[1]);
  }

  // ---- The generated module ----

  const LEAF := Seq(Plain(Get(0)), Done)

  function WithConst(c: int, op: BinOp, rest: Code): Code {
    Seq(Plain(Get(0)), Seq(Plain(Const(c)), Seq(Plain(Bin(op)), rest)))
  }

  function Recur(): Code {
    WithConst(1, Sub, Seq(Call(2), WithConst(2, Sub, Seq(Call(2), Seq(Plain(Bin(Add)), Done)))))
  }

  function FibCode(): Code {
    WithConst(2, LtS, Seq(IfElse(0x7f, LEAF, Recur()), Done))
  }

  function AddCode(): Code {
    Seq(Plain(Get(0)), Seq(Plain(Get(1)), Seq(Plain(Bin(Add)), Done)))
  }

  function HelloCode(): Code {
    Seq(Plain(Const(42)), Seq(Call(0), Done))
  }

  /** One import, `print`, then `add`, `fib` and `hello`. */
  function TestModule(host: (nat, seq<int>) -> int): Module<Code> {
    Module([Sig(1, true)], host,
           [Func(Sig(2, true), 2, AddCode()), Func(Sig(1, true), 1, FibCode()), Func(Sig(0, true), 0, HelloCode())])
  }

  // ---- The mathematics ----

  function Fib(x: int): int {
    if x < 2 then x else Fib(x - 1) + Fib(x - 2)
  }

  /** Fibonacci where calls nested `d` deep return 0. */
  function Limited(x: int, d: nat): int
    decreases d
  {
    if d == 0 then 0 else if x < 2 then x else Limited(x - 1, d - 1) + Limited(x - 2, d - 1)
  }

  lemma {:induction false} LimitedBound(x: int, d: nat)
    requires x >= 0
    ensures 0 <= Limited(x, d) <= Pow2(d)
    decreases d
  {
    if d > 0 && x >= 2 {
      LimitedBound(x - 1, d - 1);
      LimitedBound(x - 2, d - 1);
    }
  }

  /** It falls short of the Fibonacci number exactly when the depth does not suffice. */
  lemma {:induction false} LimitedIs(x: int, d: nat)
    requires d > 0 || x > 0
    ensures if x <= d then Limited(x, d) == Fib(x) else Limited(x, d) < Fib(x)
    decreases d
  {
    if x >= 2 {
      FibPositive(x);
      if d > 1 {
        LimitedIs(x - 1, d - 1);
        LimitedIs(x - 2, d - 1);
      } 
    }
  }

  lemma {:induction false} FibPositive(x: int)
    requires x >= 1
    ensures Fib(x) >= 1
  {
    if x >= 3 {
      FibPositive(x - 1);
      FibPositive(x - 2);
    }
  }

  // ---- Running fib ----

  /** `m'` is `m` with `v` pushed; values above the top do not matter. */
  ghost predicate Pushed(m: Mem, v: int, m': Mem) {
    && m.sp < STACK && m'.sp == m.sp + 1 && m'.stack[m.sp] == v && m'.stack[..m.sp] == m.stack[..m.sp]
    && m'.locals == m.locals && m'.count == m.count
  }

  /** Local 0 and a constant combined: the result is pushed. */
  lemma Combined(md: Module<Code>, fp: nat, n: nat, c: int, op: BinOp, rest: Code, m: Mem, k: nat, v: int) returns (m': Mem)
    requires m.sp + 2 <= STACK && m.count >= 1 && Alu(op, m.locals[0], c) == Some(v)
    ensures EvalC(md, fp, n, WithConst(c, op, rest), m, k) == EvalC(md, fp, n, rest, m', k) && Pushed(m, v, m')
  {
    hide Alu;
    var m1 := Push(m, m.locals[0]);
    var m2 := Push(m1, c);
    m' := Apply(Bin(op), m2).value;
    Then(md, fp, n, Plain(Get(0)), Seq(Plain(Const(c)), Seq(Plain(Bin(op)), rest)), m, k, m1);
    Then(md, fp, n, Plain(Const(c)), Seq(Plain(Bin(op)), rest), m1, k, m2);
    Then(md, fp, n, Plain(Bin(op)), rest, m2, k, m');
  }

  lemma Then(md: Module<Code>, fp: nat, n: nat, i: Instr, rest: Code, m: Mem, k: nat, m': Mem)
    requires EvalI(md, fp, n, i, m, k) == Next(m')
    ensures EvalC(md, fp, n, Seq(i, rest), m, k) == EvalC(md, fp, n, rest, m', k)
  {
    hide EvalI;
  }

  /** What a call of `fib` leaves: the result, and the stack below it as it was. */
  ghost predicate Gives(o: Outcome, stack: Stack, sp: Sp, v: int) {
    o.Exit? && o.v == v && o.stack[..sp] == stack[..sp]
  }

  lemma FibCall(host: (nat, seq<int>) -> int, fp: nat, n: nat, m: Mem, x: int, m1: Mem, k: nat, v: int) returns (m': Mem)
    requires Pushed(m, x, m1) && k > 0
    requires Gives(EvalFn(TestModule(host), fp, 2, [x], m1.stack, m.sp, k - 1), m1.stack, m.sp, v)
    ensures EvalI(TestModule(host), fp, n, Call(2), m1, k) == Next(m') && Pushed(m, v, m')
  {
    hide EvalFn;
    var md := TestModule(host);
    var sig := Sig(1, true);
    assert SigOf(md, 2) == Some(sig);
    assert m1.stack[m.sp..m1.sp] == [x];
    assert Args(md, 2, m1) == Some((sig, [x]));
    var o := EvalFn(md, fp, 2, [x], m1.stack, m.sp, k - 1);
    m' := Back(m1, sig, o.stack, o.v);
    assert m'.stack[..m.sp] == o.stack[..m.sp] == m1.stack[..m.sp];
  }

  lemma AddTop(md: Module<Code>, fp: nat, n: nat, m: Mem, a: int, m1: Mem, b: int, m2: Mem, k: nat) returns (m': Mem)
    requires Pushed(m, a, m1) && Pushed(m1, b, m2)
    ensures EvalI(md, fp, n, Plain(Bin(Add)), m2, k) == Next(m') && Pushed(m, ToSigned(a + b), m')
  {
    m' := m2.(stack := m2.stack[m.sp := ToSigned(a + b)], sp := m.sp + 1);
    assert m2.stack[m.sp] == m2.stack[..m1.sp][m.sp] == a;
    assert m'.stack[..m.sp] == m2.stack[..m1.sp][..m.sp] == m1.stack[..m.sp];
  }

  lemma LeafRuns(md: Module<Code>, fp: nat, n: nat, m: Mem, k: nat) returns (m': Mem)
    requires m.sp < STACK && m.count >= 1
    ensures EvalC(md, fp, n, LEAF, m, k) == Next(m') && Pushed(m, m.locals[0], m')
  {
    m' := Push(m, m.locals[0]);
    Then(md, fp, n, Plain(Get(0)), Done, m, k, m');
  }

  /** The operands of the recursive branch stay far from the word's limits. */
  lemma SmallSum(x: int, d: nat)
    requires 2 <= x && 0 < d <= CALLS
    ensures ToSigned(Limited(x - 1, d - 1) + Limited(x - 2, d - 1)) == Limited(x, d)
  {
    LimitedBound(x - 1, d - 1);
    LimitedBound(x - 2, d - 1);
    Pow2Grows(d - 1, 16);
    Pow2Sixteen();
    hide Pow2, ToSigned;
    SmallSigned(Limited(x - 1, d - 1) + Limited(x - 2, d - 1));
  }

  lemma SmallSigned(v: int)
    requires 0 <= v <= 131072
    ensures ToSigned(v) == v
  {
  }

  lemma Pow2Sixteen()
    ensures Pow2(16) == 65536
  {
    assert Pow2(8) == 256 by { assert Pow2(4) == 16; }
    assert Pow2(12) == 4096;
  }

  lemma {:induction false} Pow2Grows(a: nat, b: nat)
    requires a <= b
    ensures Pow2(a) <= Pow2(b)
    decreases b
  {
    if a < b { Pow2Grows(a, b - 1); }
  }

  lemma {:induction false} RecurRuns(host: (nat, seq<int>) -> int, fp: nat, m: Mem, x: int, k: nat) returns (m': Mem)
    requires 0 < fp <= CALLS && k > CALLS - fp && Word(x) && x >= 2
    requires m.sp + (CALLS - fp) + 4 <= STACK && m.count >= 1 && m.locals[0] == x
    ensures EvalC(TestModule(host), fp, 1, Recur(), m, k) == Next(m') && Pushed(m, Limited(x, CALLS - fp + 1), m')
    decreases CALLS - fp, 2
  {
    hide EvalC, EvalI, EvalFn, Pushed, Limited, Alu, Gives, TestModule;
    var md, d := TestModule(host), CALLS - fp;
    var v, w := Limited(x - 1, d), Limited(x - 2, d);
    var rest := Seq(Call(2), Seq(Plain(Bin(Add)), Done));
    SubIs(x);
    var a1 := Combined(md, fp, 1, 1, Sub, Seq(Call(2), WithConst(2, Sub, rest)), m, k, x - 1);
    PushedHas(m, x - 1, a1);
    FibEval(host, fp, x - 1, a1.stack, m.sp, k - 1);
    var a2 := FibCall(host, fp, 1, m, x - 1, a1, k, v);
    Then(md, fp, 1, Call(2), WithConst(2, Sub, rest), a1, k, a2);
    PushedHas(m, v, a2);
    var a3 := Combined(md, fp, 1, 2, Sub, rest, a2, k, x - 2);
    PushedHas(a2, x - 2, a3);
    FibEval(host, fp, x - 2, a3.stack, a2.sp, k - 1);
    var a4 := FibCall(host, fp, 1, a2, x - 2, a3, k, w);
    Then(md, fp, 1, Call(2), Seq(Plain(Bin(Add)), Done), a3, k, a4);
    m' := AddTop(md, fp, 1, m, v, a2, w, a4, k);
    Then(md, fp, 1, Plain(Bin(Add)), Done, a4, k, m');
    SmallSum(x, d + 1);
    Ends(md, fp, 1, m', k);
  }

  lemma SubIs(x: int)
    requires Word(x) && x >= 2
    ensures Alu(Sub, x, 1) == Some(x - 1) && Alu(Sub, x, 2) == Some(x - 2)
  {
  }

  lemma PushedHas(m: Mem, v: int, m': Mem)
    requires Pushed(m, v, m')
    ensures m'.sp == m.sp + 1 && m'.locals == m.locals && m'.count == m.count && m'.stack[..m.sp] == m.stack[..m.sp]
  {
  }

  lemma Ends(md: Module<Code>, fp: nat, n: nat, m: Mem, k: nat)
    ensures EvalC(md, fp, n, Done, m, k) == Next(m)
  {
  }

  /** At any depth a call of `fib` gives the Fibonacci number that the remaining frames allow. */
  lemma {:induction false} FibEval(host: (nat, seq<int>) -> int, fp: nat, x: int, stack: Stack, sp: Sp, k: nat)
    requires fp <= CALLS && k >= CALLS - fp && Word(x) && sp + (CALLS - fp) + 3 <= STACK
    ensures Gives(EvalFn(TestModule(host), fp, 2, [x], stack, sp, k), stack, sp, Limited(x, CALLS - fp))
    decreases CALLS - fp, 1
  {
    hide EvalC, EvalI, Alu, Pushed, Recur, Limited;
    var md := TestModule(host);
    if fp == CALLS {
      LimitedLeaf(x, 0);
    } else {
      var m := Entry(md.funcs[1], [x], stack, sp);
      var m' := FibBody(host, fp, x, m, k);
      PushedHas(m, Limited(x, CALLS - fp), m');
      PushedTop(m, Limited(x, CALLS - fp), m');
    }
  }

  lemma PushedTop(m: Mem, v: int, m': Mem)
    requires Pushed(m, v, m')
    ensures Top(m') == v
  {
  }

  lemma LimitedLeaf(x: int, d: nat)
    ensures d == 0 ==> Limited(x, d) == 0
    ensures d > 0 && x < 2 ==> Limited(x, d) == x
  {
  }

  lemma {:induction false} FibBody(host: (nat, seq<int>) -> int, fp: nat, x: int, m: Mem, k: nat) returns (m': Mem)
    requires fp < CALLS && k >= CALLS - fp && Word(x) && m.sp + (CALLS - fp) + 3 <= STACK
    requires m.count == 1 && m.locals[0] == x
    ensures EvalC(TestModule(host), fp + 1, 0, FibCode(), m, k) == Next(m') && Pushed(m, Limited(x, CALLS - fp), m')
    decreases CALLS - fp, 0
  {
    hide EvalC, Alu, Recur, Limited, Pushed, TestModule;
    var md := TestModule(host);
    var test, fork := if x < 2 then 1 else 0, IfElse(0x7f, LEAF, Recur());
    assert Alu(LtS, x, 2) == Some(test) by { LessIs(x); }
    var m1 := Combined(md, fp + 1, 0, 2, LtS, Seq(fork, Done), m, k, test);
    PushedHas(m, test, m1);
    PushedTop(m, test, m1);
    var m2 := m1.(sp := m.sp);
    if x < 2 {
      m' := LeafRuns(md, fp + 1, 1, m2, k);
      LimitedLeaf(x, CALLS - fp);
    } else {
      m' := RecurRuns(host, fp + 1, m2, x, k);
    }
    PushedOnto(m, m2, Limited(x, CALLS - fp), m');
    Then(md, fp + 1, 0, fork, Done, m1, k, m');
    Ends(md, fp + 1, 0, m', k);
  }

  lemma LessIs(x: int)
    ensures Alu(LtS, x, 2) == Some(if x < 2 then 1 else 0)
  {
  }

  lemma PushedOnto(m: Mem, m2: Mem, v: int, m': Mem)
    requires m2.sp == m.sp && m2.locals == m.locals && m2.count == m.count && m2.stack[..m.sp] == m.stack[..m.sp]
    requires Pushed(m2, v, m')
    ensures Pushed(m, v, m')
  {
  }

  // ---- The module in the interpreter ----

  lemma WithConstBytes(c: int, op: BinOp, rest: Code)
    requires 0 <= c < 64
    ensures EncC(WithConst(c, op, rest)) == [0x20, 0, 0x41, c, Opcode(op)] + EncC(rest)
    ensures WfC(WithConst(c, op, rest)) == WfC(rest)
  {
    hide EncC, WfC, Opcode;
    assert EncU(0) == [0] && EncS(c) == [c];
    CodeStep(Plain(Bin(op)), rest);
    CodeStep(Plain(Const(c)), Seq(Plain(Bin(op)), rest));
    CodeStep(Plain(Get(0)), Seq(Plain(Const(c)), Seq(Plain(Bin(op)), rest)));
  }

  lemma CodeStep(i: Instr, rest: Code)
    ensures EncC(Seq(i, rest)) == EncI(i) + EncC(rest) && WfC(Seq(i, rest)) == (WfI(i) && WfC(rest))
  {
    hide EncI, WfI;
  }

  lemma NoBytes()
    ensures EncC(Done) == [] && WfC(Done)
  {
  }

  lemma RecurBytes()
    ensures EncC(Recur()) == [0x20, 0, 0x41, 1, 0x6b, 0x10, 2, 0x20, 0, 0x41, 2, 0x6b, 0x10, 2, 0x6a] && WfC(Recur())
  {
    hide EncC, WfC, WithConst;
    assert EncU(2) == [2];
    var add := Seq(Plain(Bin(Add)), Done);
    NoBytes();
    CodeStep(Plain(Bin(Add)), Done);
    CodeStep(Call(2), add);
    WithConstBytes(2, Sub, Seq(Call(2), add));
    CodeStep(Call(2), WithConst(2, Sub, Seq(Call(2), add)));
    WithConstBytes(1, Sub, Seq(Call(2), WithConst(2, Sub, Seq(Call(2), add))));
  }

  lemma FibBytes()
    ensures EncC(FibCode()) == [0x20, 0, 0x41, 2, 0x48, 0x04, 0x7f, 0x20, 0, 0x05,
                                0x20, 0, 0x41, 1, 0x6b, 0x10, 2, 0x20, 0, 0x41, 2, 0x6b, 0x10, 2, 0x6a, 0x0b]
    ensures WfC(FibCode())
  {
    hide EncC, WfC, WithConst, Recur;
    assert EncU(0) == [0];
    NoBytes();
    CodeStep(Plain(Get(0)), Done);
    RecurBytes();
    var fork := IfElse(0x7f, LEAF, Recur());
    CodeStep(fork, Done);
    WithConstBytes(2, LtS, Seq(fork, Done));
  }

  lemma AddBytes()
    ensures EncC(AddCode()) == [0x20, 0, 0x20, 1, 0x6a] && WfC(AddCode())
  {
    hide EncC, WfC;
    assert EncU(0) == [0] && EncU(1) == [1];
    NoBytes();
    CodeStep(Plain(Bin(Add)), Done);
    CodeStep(Plain(Get(1)), Seq(Plain(Bin(Add)), Done));
    CodeStep(Plain(Get(0)), Seq(Plain(Get(1)), Seq(Plain(Bin(Add)), Done)));
  }

  lemma HelloBytes()
    ensures EncC(HelloCode()) == [0x41, 42, 0x10, 0] && WfC(HelloCode())
  {
    hide EncC, WfC;
    assert EncU(0) == [0] && EncS(42) == [42];
    NoBytes();
    CodeStep(Call(0), Done);
    CodeStep(Plain(Const(42)), Seq(Call(0), Done));
  }

  /** The bytes of the three bodies. */
  lemma TestBytes(host: (nat, seq<int>) -> int)
    ensures WfM(TestModule(host))
    ensures var mb := Assemble(TestModule(host));
      && |mb.funcs| == 3
      && mb.funcs[0].code == TwoOperands(0x6a)
      && mb.funcs[1].code == [0x20, 0, 0x41, 2, 0x48, 0x04, 0x7f, 0x20, 0, 0x05,
                              0x20, 0, 0x41, 1, 0x6b, 0x10, 2, 0x20, 0, 0x41, 2, 0x6b, 0x10, 2, 0x6a, 0x0b, 0x0b]
      && mb.funcs[2].code == [0x41, 42, 0x10, 0, 0x0b]
  {
    hide EncC, WfC, FibCode, AddCode, HelloCode;
    FibBytes();
    AddBytes();
    HelloBytes();
  }

  /** `fib` through the interpreter: right for every word up to 16 and too small for every larger one. */
  lemma FibRuns(host: (nat, seq<int>) -> int, x: int, stack: Stack) returns (fuel: nat)
    requires Word(x)
    ensures var r := CallFn(Assemble(TestModule(host)), 0, 2, [x], stack, 0, fuel);
      r.Ret? && if x <= 16 then r.v == Fib(x) else r.v < Fib(x)
  {
    hide EvalFn, CallFn, Assemble, Limited, Fib;
    TestBytes(host);
    FibEval(host, 0, x, stack, 0, CALLS);
    LimitedIs(x, CALLS);
    fuel := Simulates(TestModule(host), 0, 2, [x], stack, 0, CALLS);
  }

  /** `add` through the interpreter: the sum, wrapped to a word. */
  lemma AddRuns(host: (nat, seq<int>) -> int, a: int, b: int, stack: Stack)
    requires Word(a) && Word(b)
    ensures var r := CallFn(Assemble(TestModule(host)), 0, 1, [a, b], stack, 0, 4); r.Ret? && Wraps(r.v, a + b)
  {
    hide CallFn;
    TestBytes(host);
    TwoOperandsMean(Assemble(TestModule(host)), 0, 1, 0x6a, [a, b], stack, 0, 4);
  }

  /** `hello` through the interpreter: what `print` returns for 42. */
  lemma HelloRuns(host: (nat, seq<int>) -> int, stack: Stack) returns (fuel: nat)
    ensures var r := CallFn(Assemble(TestModule(host)), 0, 3, [], stack, 0, fuel); r.Ret? && r.v == host(0, [42])
  {
    hide CallFn, Assemble;
    TestBytes(host);
    var md := TestModule(host);
    var m := Entry(md.funcs[2], [], stack, 0);
    var m1 := Push(m, 42);
    assert m1.stack[0..1] == [42];
    var m2 := Back(m1, Sig(1, true), m1.stack, host(0, [42]));
    assert EvalI(md, 1, 0, Call(0), m1, 1) == Next(m2);
    Then(md, 1, 0, Plain(Const(42)), Seq(Call(0), Done), m, 1, m1);
    Then(md, 1, 0, Call(0), Done, m1, 1, m2);
    Ends(md, 1, 0, m2, 1);
    fuel := Simulates(md, 0, 3, [], stack, 0, 1);
  }
}
