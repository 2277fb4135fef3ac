/**
 The flat interpreter on the byte encoding of a structured module does what the structured
 semantics says, and stops exactly when it does.
 */
module WasmSim {
  import opened Leb128
  import opened WasmCode
  import opened WasmMachine

  ghost predicate WfM(md: Module<Code>) {
    forall j :: 0 <= j < |md.funcs| ==> WfC(md.funcs[j].code)
  }

  function Assembled(fn: Func<Code>): Func<seq<byte>> {
    Func(fn.sig, fn.count, EncC(fn.code) + [0x0b])
  }

  /** The module as the interpreter sees it: every body encoded and closed by an end. */
  function Assemble(md: Module<Code>): (mb: Module<seq<byte>>)
    ensures |mb.funcs| == |md.funcs|
    ensures forall j :: 0 <= j < |md.funcs| ==> mb.funcs[j] == Assembled(md.funcs[j])
  {
    Module(md.imports, md.host, seq(|md.funcs|, j requires 0 <= j < |md.funcs| => Assembled(md.funcs[j])))
  }

  /** The result `e` is what the outcome says of running on with fuel `g`. */
  ghost predicate Reaches(mb: Module<seq<byte>>, fp: nat, bs: seq<byte>, e: Res, o: Outcome, blocks: seq<Blk>, end: nat, g: nat) {
    match o
    case Next(m) => e == Exec(mb, fp, bs, Frame(end, m, blocks), g)
    case Jump(d, m) => d < |blocks| && e == Exec(mb, fp, bs, Target(blocks, d, m), g)
    case Exit(s, v) => e == Ret(s, v, g)
    case Fails => e == Fault
    case OutOfFuel => true
  }

  // ---- Single turns of the dispatch loop ----

  ghost predicate Follows(mb: Module<seq<byte>>, fp: nat, bs: seq<byte>, e: Res, f: Frame, mv: Move, g: nat) {
    match mv
    case Go(f') => e == Exec(mb, fp, bs, f', g)
    case Stop(v) => e == Ret(f.m.stack, v, g)
    case Trap => e == Fault
    case Enter(_) => true
  }

  lemma Turns(mb: Module<seq<byte>>, fp: nat, bs: seq<byte>, f: Frame, t: Tok, q: nat, g: nat)
    requires f.pc < |bs| && Fetch(bs, f.pc) == (t, q)
    ensures Follows(mb, fp, bs, Exec(mb, fp, bs, f, g + 1), f, Turn(bs, f, t, q), g)
  {
    hide Fetch, Turn, Args, CallFn;
  }

  lemma FetchShort(bs: seq<byte>, p: nat, b: byte)
    requires Stands(bs, p, [b]) && !HasIndex(b) && b != 0x41 && !Opens(b)
    ensures p < |bs| && Fetch(bs, p) == (Short(b), p + 1)
  {
    hide DecU, DecS;
    assert bs[p] == b;
  }

  lemma FetchOpen(bs: seq<byte>, p: nat, b: byte, bt: byte)
    requires Stands(bs, p, [b, bt]) && Opens(b)
    ensures p < |bs| && Fetch(bs, p) == (if b == 0x02 then TBlock else if b == 0x03 then TLoop else TIf, p + 2)
  {
    hide DecU, DecS;
    assert bs[p] == b;
  }

  /** The end that closes a block. */
  lemma CloseBlock(mb: Module<seq<byte>>, fp: nat, bs: seq<byte>, p: nat, m: Mem, blocks: seq<Blk>, b: Blk, g: nat)
    requires Stands(bs, p, [0x0b])
    ensures Exec(mb, fp, bs, Frame(p, m, blocks + [b]), g + 1) == Exec(mb, fp, bs, Frame(p + 1, m, blocks), g)
  {
    FetchShort(bs, p, 0x0b);
    hide Exec, Fetch;
    assert (blocks + [b])[..|blocks|] == blocks;
    Turns(mb, fp, bs, Frame(p, m, blocks + [b]), TEnd, p + 1, g);
  }

  /** The `else` that ends the first branch. */
  lemma CloseThen(mb: Module<seq<byte>>, fp: nat, bs: seq<byte>, p: nat, m: Mem, blocks: seq<Blk>, b: Blk, g: nat)
    requires Stands(bs, p, [0x05])
    ensures Exec(mb, fp, bs, Frame(p, m, blocks + [b]), g + 1) == Exec(mb, fp, bs, Frame(b.cont, m, blocks), g)
  {
    FetchShort(bs, p, 0x05);
    hide Exec, Fetch;
    assert (blocks + [b])[..|blocks|] == blocks;
    Turns(mb, fp, bs, Frame(p, m, blocks + [b]), TElse, p + 1, g);
  }

  /** Branches out of a block reach the same place with or without its record. */
  lemma OuterTarget(blocks: seq<Blk>, b: Blk, d: nat, m: Mem)
    requires 0 < d <= |blocks|
    ensures Target(blocks + [b], d, m) == Target(blocks, d - 1, m)
  {
    var i := |blocks| - d;
    assert (blocks + [b])[i] == blocks[i];
    assert (blocks + [b])[..i] == blocks[..i];
    assert (blocks + [b])[..i + 1] == blocks[..i + 1];
  }

  lemma InnerTarget(blocks: seq<Blk>, b: Blk, m: Mem)
    ensures Target(blocks + [b], 0, m) ==
            Frame(if b.loop then b.start else b.cont, m.(sp := b.height), if b.loop then blocks + [b] else blocks)
  {
    assert (blocks + [b])[..|blocks|] == blocks;
    assert (blocks + [b])[..|blocks| + 1] == blocks + [b];
  }

  /**
   Leaving a block: if its body agrees and falling off the body's end at `end` closes it with one
   more turn, the whole agrees with what is left of the outcome.
   */
  lemma LeaveReaches(mb: Module<seq<byte>>, fp: nat, bs: seq<byte>, e: Res, o: Outcome, blocks: seq<Blk>, b: Blk,
                     end: nat, g: nat)
    requires Reaches(mb, fp, bs, e, o, blocks + [b], end, if o.Next? then g + 1 else g) && (b.loop ==> !(o.Jump? && o.d == 0))
    requires o.Next? ==> Exec(mb, fp, bs, Frame(end, o.m, blocks + [b]), g + 1) == Exec(mb, fp, bs, Frame(b.cont, o.m, blocks), g)
    ensures Reaches(mb, fp, bs, e, Leave(o, b.height), blocks, b.cont, g)
  {
    hide Exec;
    if o.Jump? {
      if o.d == 0 {
        InnerTarget(blocks, b, o.m);
      } else {
        OuterTarget(blocks, b, o.d, o.m);
      }
    }
  }

  // ---- Simulation ----

  ghost predicate Ready(md: Module<Code>, mb: Module<seq<byte>>) {
    WfM(md) && mb == Assemble(md)
  }

  lemma {:induction false} SimCode(md: Module<Code>, mb: Module<seq<byte>>, fp: nat, bs: seq<byte>, p: nat, blocks: seq<Blk>,
                                   c: Code, m: Mem, k: nat, g: nat) returns (cost: nat)
    requires Ready(md, mb) && WfC(c) && Stands(bs, p, EncC(c))
    ensures EvalC(md, fp, |blocks|, c, m, k).Jump? ==> cost > 0
    ensures Reaches(mb, fp, bs, Exec(mb, fp, bs, Frame(p, m, blocks), g + cost),
                    EvalC(md, fp, |blocks|, c, m, k), blocks, p + |EncC(c)|, g)
    decreases k, c, 0
  {
    hide Exec, Fetch, Turn, EncI, WfI, Ready, Stands, EvalI;
    cost := 0;
    if c.Seq? {
      StandsSplit(bs, p, EncI(c.head), EncC(c.tail));
      var o := EvalI(md, fp, |blocks|, c.head, m, k);
      if o.Next? {
        var more := SimCode(md, mb, fp, bs, p + |EncI(c.head)|, blocks, c.tail, o.m, k, g);
        cost := SimInstr(md, mb, fp, bs, p, blocks, c.head, m, k, g + more);
        cost := cost + more;
      } else {
        cost := SimInstr(md, mb, fp, bs, p, blocks, c.head, m, k, g);
      }
    }
  }

  lemma {:induction false} SimNest(md: Module<Code>, mb: Module<seq<byte>>, fp: nat, bs: seq<byte>, f: Frame, t: Tok, q: nat,
                                   p: nat, b: Blk, c: Code, m: Mem, k: nat, g: nat) returns (cost: nat)
    requires Ready(md, mb) && WfC(c) && Stands(bs, p, EncC(c)) && !b.loop
    requires f.pc < |bs| && Fetch(bs, f.pc) == (t, q) && Turn(bs, f, t, q) == Go(Frame(p, m, f.blocks + [b]))
    requires Stands(bs, p + |EncC(c)|, [0x05]) || (Stands(bs, p + |EncC(c)|, [0x0b]) && b.cont == p + |EncC(c)| + 1)
    ensures cost > 0
    ensures Reaches(mb, fp, bs, Exec(mb, fp, bs, f, g + cost),
                    Leave(EvalC(md, fp, |f.blocks| + 1, c, m, k), b.height), f.blocks, b.cont, g)
    decreases k, c, 1
  {
    hide Exec, Fetch, Turn, EncC, WfC, Ready, Stands, EvalC, Reaches;
    var end := p + |EncC(c)|;
    var o := EvalC(md, fp, |f.blocks| + 1, c, m, k);
    var g' := if o.Next? then g + 1 else g;
    var inner := SimCode(md, mb, fp, bs, p, f.blocks + [b], c, m, k, g');
    if o.Next? {
      if Stands(bs, end, [0x05]) {
        CloseThen(mb, fp, bs, end, o.m, f.blocks, b, g);
      } else {
        CloseBlock(mb, fp, bs, end, o.m, f.blocks, b, g);
      }
    }
    LeaveReaches(mb, fp, bs, Exec(mb, fp, bs, Frame(p, m, f.blocks + [b]), g' + inner), o, f.blocks, b, end, g);
    Turns(mb, fp, bs, f, t, q, g' + inner);
    cost := g' - g + inner + 1;
  }

  lemma {:induction false} SimLoop(md: Module<Code>, mb: Module<seq<byte>>, fp: nat, bs: seq<byte>, p: nat, blocks: seq<Blk>,
                                   b: Blk, c: Code, m: Mem, k: nat, g: nat) returns (cost: nat)
    requires Ready(md, mb) && WfC(c) && Stands(bs, p, EncC(c)) && Stands(bs, p + |EncC(c)|, [0x0b])
    requires b.loop && b.start == p && b.cont == p + |EncC(c)| + 1
    ensures EvalLoop(md, fp, |blocks|, c, m, b.height, k).Jump? ==> cost > 0
    ensures Reaches(mb, fp, bs, Exec(mb, fp, bs, Frame(p, m, blocks + [b]), g + cost),
                    EvalLoop(md, fp, |blocks|, c, m, b.height, k), blocks, b.cont, g)
    decreases k, c, 1
  {
    hide Exec, Fetch, Turn, EncC, WfC, Ready, Stands, EvalC;
    var end := p + |EncC(c)|;
    var o := EvalC(md, fp, |blocks| + 1, c, m, k);
    if o.Jump? && o.d == 0 {
      cost := 0;
      if k > 0 {
        var more := SimLoop(md, mb, fp, bs, p, blocks, b, c, o.m.(sp := b.height), k - 1, g);
        cost := SimCode(md, mb, fp, bs, p, blocks + [b], c, m, k, g + more);
        InnerTarget(blocks, b, o.m);
        cost := cost + more;
      }
    } else {
      var g' := if o.Next? then g + 1 else g;
      cost := SimCode(md, mb, fp, bs, p, blocks + [b], c, m, k, g');
      if o.Next? {
        CloseBlock(mb, fp, bs, end, o.m, blocks, b, g);
      }
      LeaveReaches(mb, fp, bs, Exec(mb, fp, bs, Frame(p, m, blocks + [b]), g' + cost), o, blocks, b, end, g);
      cost := g' - g + cost;
    }
  }

  lemma {:induction false} SimInstr(md: Module<Code>, mb: Module<seq<byte>>, fp: nat, bs: seq<byte>, p: nat, blocks: seq<Blk>,
                                    i: Instr, m: Mem, k: nat, g: nat) returns (cost: nat)
    requires Ready(md, mb) && WfI(i) && Stands(bs, p, EncI(i))
    ensures EvalI(md, fp, |blocks|, i, m, k).Jump? ==> cost > 0
    ensures Reaches(mb, fp, bs, Exec(mb, fp, bs, Frame(p, m, blocks), g + cost),
                    EvalI(md, fp, |blocks|, i, m, k), blocks, p + |EncI(i)|, g)
    decreases k, i, 2
  {
    hide Exec, Fetch, Ready, EvalI, EncI, WfI, Stands, Reaches;
    match i
    case Call(_) => cost := SimCall(md, mb, fp, bs, p, blocks, i, m, k, g);
    case Block(_, _) => cost := SimBlock(md, mb, fp, bs, p, blocks, i, m, k, g);
    case Loop(_, _) => cost := SimBlock(md, mb, fp, bs, p, blocks, i, m, k, g);
    case If(_, _) => cost := SimIf(md, mb, fp, bs, p, blocks, i, m, k, g);
    case IfElse(_, _, _) => cost := SimIfElse(md, mb, fp, bs, p, blocks, i, m, k, g);
    case Plain(op) =>
      cost := 1;
      SimPlain(md, mb, fp, bs, p, blocks, op, m, k, g);
    case _ =>
      cost := 1;
      SimFlow(md, mb, fp, bs, p, blocks, i, m, k, g);
  }

  lemma SimPlain(md: Module<Code>, mb: Module<seq<byte>>, fp: nat, bs: seq<byte>, p: nat, blocks: seq<Blk>,
                 op: Op, m: Mem, k: nat, g: nat)
    requires WfI(Plain(op)) && Stands(bs, p, EncI(Plain(op)))
    ensures !EvalI(md, fp, |blocks|, Plain(op), m, k).Jump?
    ensures Reaches(mb, fp, bs, Exec(mb, fp, bs, Frame(p, m, blocks), g + 1),
                    EvalI(md, fp, |blocks|, Plain(op), m, k), blocks, p + |EncI(Plain(op))|, g)
  {
    hide Exec, Fetch, EncOp, Apply, Stands, WfOp;
    FetchPlain(bs, p, op);
    Turns(mb, fp, bs, Frame(p, m, blocks), TPlain(op), p + |EncOp(op)|, g);
  }

  lemma SimFlow(md: Module<Code>, mb: Module<seq<byte>>, fp: nat, bs: seq<byte>, p: nat, blocks: seq<Blk>,
                i: Instr, m: Mem, k: nat, g: nat)
    requires WfI(i) && Stands(bs, p, EncI(i)) && (i.Br? || i.BrIf? || i.Return? || i.Unreachable?)
    ensures Reaches(mb, fp, bs, Exec(mb, fp, bs, Frame(p, m, blocks), g + 1),
                    EvalI(md, fp, |blocks|, i, m, k), blocks, p + |EncI(i)|, g)
  {
    hide Exec, Fetch, EncU, Stands, Target;
    var f := Frame(p, m, blocks);
    match i
    case Br(d) =>
      FetchIndexed(bs, p, 0x0c, d);
      Turns(mb, fp, bs, f, TBr(d), p + 1 + |EncU(d)|, g);
    case BrIf(d) =>
      FetchIndexed(bs, p, 0x0d, d);
      Turns(mb, fp, bs, f, TBrIf(d), p + 1 + |EncU(d)|, g);
    case Return =>
      FetchShort(bs, p, 0x0f);
      Turns(mb, fp, bs, f, TReturn, p + 1, g);
    case Unreachable =>
      FetchShort(bs, p, 0x00);
      Turns(mb, fp, bs, f, TUnreachable, p + 1, g);
  }

  lemma {:induction false} SimBlock(md: Module<Code>, mb: Module<seq<byte>>, fp: nat, bs: seq<byte>, p: nat, blocks: seq<Blk>,
                                    i: Instr, m: Mem, k: nat, g: nat) returns (cost: nat)
    requires Ready(md, mb) && WfI(i) && Stands(bs, p, EncI(i)) && (i.Block? || i.Loop?)
    ensures cost > 0
    ensures Reaches(mb, fp, bs, Exec(mb, fp, bs, Frame(p, m, blocks), g + cost),
                    EvalI(md, fp, |blocks|, i, m, k), blocks, p + |EncI(i)|, g)
    decreases k, i, 1
  {
    hide Exec, Fetch, Ready, EvalC, EvalLoop, EncC, SkipEnd, SkipElse, Stands;
    var f := Frame(p, m, blocks);
    var op, t := if i.Block? then 0x02 else 0x03, if i.Block? then TBlock else TLoop;
    StandsSplit(bs, p, [op, i.bt], EncC(i.body) + [0x0b]);
    StandsSplit(bs, p + 2, EncC(i.body), [0x0b]);
    FetchOpen(bs, p, op, i.bt);
    LandEnd(bs, p + 2, i.body);
    if |blocks| >= DEPTH {
      Turns(mb, fp, bs, f, t, p + 2, g);
      cost := 1;
    } else if i.Block? {
      var b := Blk(false, p + |EncI(i)|, 0, m.sp);
      cost := SimNest(md, mb, fp, bs, f, t, p + 2, p + 2, b, i.body, m, k, g);
    } else {
      var b := Blk(true, p + |EncI(i)|, p + 2, m.sp);
      cost := SimLoop(md, mb, fp, bs, p + 2, blocks, b, i.body, m, k, g);
      Turns(mb, fp, bs, f, t, p + 2, g + cost);
      cost := cost + 1;
    }
  }

  lemma {:induction false} SimIf(md: Module<Code>, mb: Module<seq<byte>>, fp: nat, bs: seq<byte>, p: nat, blocks: seq<Blk>,
                                 i: Instr, m: Mem, k: nat, g: nat) returns (cost: nat)
    requires Ready(md, mb) && WfI(i) && Stands(bs, p, EncI(i)) && i.If?
    ensures cost > 0
    ensures Reaches(mb, fp, bs, Exec(mb, fp, bs, Frame(p, m, blocks), g + cost),
                    EvalI(md, fp, |blocks|, i, m, k), blocks, p + |EncI(i)|, g)
    decreases k, i, 1
  {
    hide Exec, Fetch, Ready, EvalC, EvalLoop, EncC, SkipEnd, SkipElse, Stands;
    var f := Frame(p, m, blocks);
    StandsSplit(bs, p, [0x04, i.bt], EncC(i.body) + [0x0b]);
    StandsSplit(bs, p + 2, EncC(i.body), [0x0b]);
    FetchOpen(bs, p, 0x04, i.bt);
    LandEnd(bs, p + 2, i.body);
    if m.sp == 0 || m.stack[m.sp - 1] == 0 || |blocks| >= DEPTH {
      Turns(mb, fp, bs, f, TIf, p + 2, g);
      cost := 1;
    } else {
      var m' := m.(sp := m.sp - 1);
      var b := Blk(false, p + |EncI(i)|, 0, m'.sp);
      cost := SimNest(md, mb, fp, bs, f, TIf, p + 2, p + 2, b, i.body, m', k, g);
    }
  }

  lemma {:induction false} SimIfElse(md: Module<Code>, mb: Module<seq<byte>>, fp: nat, bs: seq<byte>, p: nat, blocks: seq<Blk>,
                                     i: Instr, m: Mem, k: nat, g: nat) returns (cost: nat)
    requires Ready(md, mb) && WfI(i) && Stands(bs, p, EncI(i)) && i.IfElse?
    ensures cost > 0
    ensures Reaches(mb, fp, bs, Exec(mb, fp, bs, Frame(p, m, blocks), g + cost),
                    EvalI(md, fp, |blocks|, i, m, k), blocks, p + |EncI(i)|, g)
    decreases k, i, 1
  {
    hide Exec, Fetch, Ready, EvalC, EvalLoop, EncC, SkipEnd, SkipElse, Stands;
    var f := Frame(p, m, blocks);
    var q := p + 2 + |EncC(i.body)|;
    StandsSplit(bs, p, [0x04, i.bt], EncC(i.body) + ([0x05] + (EncC(i.other) + [0x0b])));
    StandsSplit(bs, p + 2, EncC(i.body), [0x05] + (EncC(i.other) + [0x0b]));
    StandsSplit(bs, q, [0x05], EncC(i.other) + [0x0b]);
    StandsSplit(bs, q + 1, EncC(i.other), [0x0b]);
    FetchOpen(bs, p, 0x04, i.bt);
    LandElse(bs, p + 2, i.body, i.other);
    if m.sp == 0 || |blocks| >= DEPTH {
      Turns(mb, fp, bs, f, TIf, p + 2, g);
      cost := 1;
    } else {
      var m' := m.(sp := m.sp - 1);
      var b := Blk(false, p + |EncI(i)|, 0, m'.sp);
      if m.stack[m.sp - 1] != 0 {
        cost := SimNest(md, mb, fp, bs, f, TIf, p + 2, p + 2, b, i.body, m', k, g);
      } else {
        cost := SimNest(md, mb, fp, bs, f, TIf, p + 2, q + 1, b, i.other, m', k, g);
      }
    }
  }

  /** A call instruction, with the callee's run inside it. */
  lemma {:induction false} SimCall(md: Module<Code>, mb: Module<seq<byte>>, fp: nat, bs: seq<byte>, p: nat, blocks: seq<Blk>,
                                   i: Instr, m: Mem, k: nat, g: nat) returns (cost: nat)
    requires Ready(md, mb) && i.Call? && WfI(i) && Stands(bs, p, EncI(i))
    ensures cost > 0 && !EvalI(md, fp, |blocks|, i, m, k).Jump?
    ensures Reaches(mb, fp, bs, Exec(mb, fp, bs, Frame(p, m, blocks), g + cost),
                    EvalI(md, fp, |blocks|, i, m, k), blocks, p + |EncI(i)|, g)
    decreases k, i, 1
  {
    hide Exec, Fetch, Ready, EvalFn, EncU, Stands;
    var fi := i.f;
    FetchIndexed(bs, p, 0x10, fi);
    SameArgs(md, mb, fi, m);
    var f, q := Frame(p, m, blocks), p + 1 + |EncU(fi)|;
    if Args(md, fi, m).None? {
      cost := 1;
      CallTurn(mb, fp, bs, f, fi, q, g);
    } else if k == 0 {
      cost := 1;
    } else {
      var (sig, args) := Args(md, fi, m).value;
      cost := SimFn(md, mb, fp, fi, args, m.stack, m.sp - sig.params, k - 1, g);
      CallTurn(mb, fp, bs, f, fi, q, g + cost);
      cost := cost + 1;
    }
  }

  lemma SameArgs(md: Module<Code>, mb: Module<seq<byte>>, fi: nat, m: Mem)
    requires Ready(md, mb)
    ensures Args(mb, fi, m) == Args(md, fi, m)
  {
  }

  /** A call instruction runs the callee on the remaining fuel and goes on with what it leaves. */
  lemma CallTurn(mb: Module<seq<byte>>, fp: nat, bs: seq<byte>, f: Frame, fi: nat, q: nat, g: nat)
    requires f.pc < |bs| && Fetch(bs, f.pc) == (TCall(fi), q)
    ensures Args(mb, fi, f.m).None? ==> Exec(mb, fp, bs, f, g + 1) == Ret(f.m.stack, 0, g)
    ensures Args(mb, fi, f.m).Some? ==>
      var (sig, args) := Args(mb, fi, f.m).value;
      var r := CallFn(mb, fp, fi, args, f.m.stack, f.m.sp - sig.params, g);
      Exec(mb, fp, bs, f, g + 1) ==
      if r.Ret? then Exec(mb, fp, bs, Frame(q, Back(f.m, sig, r.stack, r.v), f.blocks), r.left) else r
  {
    hide Fetch, Args, CallFn;
  }

  lemma {:induction false} SimFn(md: Module<Code>, mb: Module<seq<byte>>, fp: nat, fi: nat, args: seq<int>, stack: Stack, sp: Sp,
                                 k: nat, g: nat) returns (cost: nat)
    requires Ready(md, mb)
    ensures var o := EvalFn(md, fp, fi, args, stack, sp, k);
      && !o.Next? && !o.Jump?
      && (o.Exit? ==> CallFn(mb, fp, fi, args, stack, sp, g + cost) == Ret(o.stack, o.v, g))
      && (o.Fails? ==> CallFn(mb, fp, fi, args, stack, sp, g + cost) == Fault)
    decreases k
  {
    hide Exec, Fetch, EncC, EvalC, WfC;
    cost := 0;
    if |md.imports| <= fi < |md.imports| + |md.funcs| && fp < CALLS {
      var fn := md.funcs[fi - |md.imports|];
      var c, bs := fn.code, EncC(fn.code) + [0x0b];
      var m := Entry(fn, args, stack, sp);
      assert mb.funcs[fi - |md.imports|] == Assembled(fn);
      assert Stands(bs, 0, EncC(c)) && Stands(bs, |EncC(c)|, [0x0b]);
      var o := EvalC(md, fp + 1, 0, c, m, k);
      var g' := if o.Next? then g + 1 else g;
      cost := SimCode(md, mb, fp + 1, bs, 0, [], c, m, k, g');
      if o.Next? {
        FetchShort(bs, |EncC(c)|, 0x0b);
        Turns(mb, fp + 1, bs, Frame(|EncC(c)|, o.m, []), TEnd, |EncC(c)| + 1, g);
      }
      cost := g' - g + cost;
    }
  }

  // ---- More fuel changes nothing but what is left ----

  function More(r: Res, d: nat): Res {
    if r.Ret? then Ret(r.stack, r.v, r.left + d) else r
  }

  lemma {:induction false} ExecMono(mb: Module<seq<byte>>, fp: nat, bs: seq<byte>, f: Frame, x: nat, y: nat)
    requires x <= y
    ensures var r := Exec(mb, fp, bs, f, x); !r.Fuel? ==> Exec(mb, fp, bs, f, y) == More(r, y - x)
    decreases x, 0
  {
    hide Exec, Fetch, Turn, Args, CallFn, Back;
    if x == 0 || f.pc >= |bs| {
      ExecIdle(mb, fp, bs, f, x, y);
    } else {
      var (t, q) := Fetch(bs, f.pc);
      var mv := Turn(bs, f, t, q);
      Turns(mb, fp, bs, f, t, q, x - 1);
      Turns(mb, fp, bs, f, t, q, y - 1);
      if mv.Go? {
        ExecMono(mb, fp, bs, mv.f, x - 1, y - 1);
      } else if mv.Enter? {
        EnterIsCall(bs, f, t, q);
        CallTurn(mb, fp, bs, f, t.f, q, x - 1);
        CallTurn(mb, fp, bs, f, t.f, q, y - 1);
        if Args(mb, t.f, f.m).Some? {
          var (sig, args) := Args(mb, t.f, f.m).value;
          CallMono(mb, fp, t.f, args, f.m.stack, f.m.sp - sig.params, x - 1, y - 1);
          var r := CallFn(mb, fp, t.f, args, f.m.stack, f.m.sp - sig.params, x - 1);
          if r.Ret? {
            ExecMono(mb, fp, bs, Frame(q, Back(f.m, sig, r.stack, r.v), f.blocks), r.left, r.left + (y - x));
          }
        }
      }
    }
  }

  lemma ExecIdle(mb: Module<seq<byte>>, fp: nat, bs: seq<byte>, f: Frame, x: nat, y: nat)
    requires x <= y && (x == 0 || f.pc >= |bs|)
    ensures var r := Exec(mb, fp, bs, f, x); !r.Fuel? ==> Exec(mb, fp, bs, f, y) == More(r, y - x)
  {
  }

  lemma ExecEnds(mb: Module<seq<byte>>, fp: nat, bs: seq<byte>, f: Frame, x: nat)
    requires x == 0 || f.pc >= |bs|
    ensures Exec(mb, fp, bs, f, x) == if x == 0 then Fuel else Ret(f.m.stack, Top(f.m), x - 1)
  {
  }

  lemma EnterIsCall(bs: seq<byte>, f: Frame, t: Tok, q: nat)
    requires Turn(bs, f, t, q).Enter?
    ensures t == TCall(Turn(bs, f, t, q).fi)
  {
    hide Apply, SkipEnd, SkipElse, Target;
  }

  lemma {:induction false} CallMono(mb: Module<seq<byte>>, fp: nat, fi: nat, args: seq<int>, stack: Stack, sp: Sp, x: nat, y: nat)
    requires x <= y
    ensures var r := CallFn(mb, fp, fi, args, stack, sp, x);
      !r.Fuel? ==> CallFn(mb, fp, fi, args, stack, sp, y) == More(r, y - x)
    decreases x, 1
  {
    hide Exec;
    if |mb.imports| <= fi < |mb.imports| + |mb.funcs| && fp < CALLS {
      var fn := mb.funcs[fi - |mb.imports|];
      ExecMono(mb, fp + 1, fn.code, Frame(0, Entry(fn, args, stack, sp), []), x, y);
    }
  }

  // ---- When the structured semantics needs more fuel, so does the machine ----

  lemma {:induction false} LongCode(md: Module<Code>, mb: Module<seq<byte>>, fp: nat, bs: seq<byte>, p: nat, blocks: seq<Blk>,
                                    c: Code, m: Mem, k: nat)
    requires Ready(md, mb) && WfC(c) && Stands(bs, p, EncC(c)) && EvalC(md, fp, |blocks|, c, m, k).OutOfFuel?
    ensures Exec(mb, fp, bs, Frame(p, m, blocks), k).Fuel?
    decreases k, c, 0
  {
    hide Exec, Fetch, Turn, EncI, WfI, Ready, Stands, EvalI;
    StandsSplit(bs, p, EncI(c.head), EncC(c.tail));
    var o := EvalI(md, fp, |blocks|, c.head, m, k);
    if o.Next? {
      LongCode(md, mb, fp, bs, p + |EncI(c.head)|, blocks, c.tail, o.m, k);
      var cost := SimInstr(md, mb, fp, bs, p, blocks, c.head, m, k, k);
      ExecMono(mb, fp, bs, Frame(p, m, blocks), k, k + cost);
    } else {
      LongInstr(md, mb, fp, bs, p, blocks, c.head, m, k);
    }
  }

  lemma {:induction false} LongNest(md: Module<Code>, mb: Module<seq<byte>>, fp: nat, bs: seq<byte>, f: Frame, t: Tok, q: nat,
                                    p: nat, b: Blk, c: Code, m: Mem, k: nat)
    requires Ready(md, mb) && WfC(c) && Stands(bs, p, EncC(c)) && EvalC(md, fp, |f.blocks| + 1, c, m, k).OutOfFuel?
    requires f.pc < |bs| && Fetch(bs, f.pc) == (t, q) && Turn(bs, f, t, q) == Go(Frame(p, m, f.blocks + [b]))
    ensures Exec(mb, fp, bs, f, k).Fuel?
    decreases k, c, 1
  {
    hide Exec, Fetch, Turn, EncC, WfC, Ready, Stands, EvalC;
    LongCode(md, mb, fp, bs, p, f.blocks + [b], c, m, k);
    Turns(mb, fp, bs, f, t, q, k);
    ExecMono(mb, fp, bs, f, k, k + 1);
  }

  lemma {:induction false} LongLoop(md: Module<Code>, mb: Module<seq<byte>>, fp: nat, bs: seq<byte>, p: nat, blocks: seq<Blk>,
                                    b: Blk, c: Code, m: Mem, k: nat)
    requires Ready(md, mb) && WfC(c) && Stands(bs, p, EncC(c)) && b.loop && b.start == p
    requires EvalLoop(md, fp, |blocks|, c, m, b.height, k).OutOfFuel?
    ensures Exec(mb, fp, bs, Frame(p, m, blocks + [b]), k).Fuel?
    decreases k, c, 1
  {
    hide Fetch, Turn, EncC, WfC, Ready, Stands, EvalC;
    var f := Frame(p, m, blocks + [b]);
    var o := EvalC(md, fp, |blocks| + 1, c, m, k);
    if k == 0 {
    } else if o.Jump? && o.d == 0 {
      LongLoop(md, mb, fp, bs, p, blocks, b, c, o.m.(sp := b.height), k - 1);
      var cost := SimCode(md, mb, fp, bs, p, blocks + [b], c, m, k, k - 1);
      InnerTarget(blocks, b, o.m);
      ExecMono(mb, fp, bs, f, k, k - 1 + cost);
    } else {
      LongCode(md, mb, fp, bs, p, blocks + [b], c, m, k);
    }
  }

  lemma {:induction false} LongInstr(md: Module<Code>, mb: Module<seq<byte>>, fp: nat, bs: seq<byte>, p: nat, blocks: seq<Blk>,
                                     i: Instr, m: Mem, k: nat)
    requires Ready(md, mb) && WfI(i) && Stands(bs, p, EncI(i)) && EvalI(md, fp, |blocks|, i, m, k).OutOfFuel?
    ensures Exec(mb, fp, bs, Frame(p, m, blocks), k).Fuel?
    decreases k, i, 2
  {
    assert i.Call? || i.IfElse? || i.Block? || i.Loop? || i.If?;
    if i.Call? {
      LongCall(md, mb, fp, bs, p, blocks, i, m, k);
    } else if i.IfElse? {
      LongIfElse(md, mb, fp, bs, p, blocks, i, m, k);
    } else {
      LongBlock(md, mb, fp, bs, p, blocks, i, m, k);
    }
  }

  lemma {:induction false} LongBlock(md: Module<Code>, mb: Module<seq<byte>>, fp: nat, bs: seq<byte>, p: nat, blocks: seq<Blk>,
                                     i: Instr, m: Mem, k: nat)
    requires Ready(md, mb) && WfI(i) && Stands(bs, p, EncI(i)) && (i.Block? || i.Loop? || i.If?)
    requires EvalI(md, fp, |blocks|, i, m, k).OutOfFuel?
    ensures Exec(mb, fp, bs, Frame(p, m, blocks), k).Fuel?
    decreases k, i, 1
  {
    hide Exec, Fetch, Ready, EvalC, EvalLoop, EncC, SkipEnd, SkipElse, Stands;
    var f := Frame(p, m, blocks);
    var op := if i.Block? then 0x02 else if i.Loop? then 0x03 else 0x04;
    var t := if i.Block? then TBlock else if i.Loop? then TLoop else TIf;
    StandsSplit(bs, p, [op, i.bt], EncC(i.body) + [0x0b]);
    StandsSplit(bs, p + 2, EncC(i.body), [0x0b]);
    FetchOpen(bs, p, op, i.bt);
    LandEnd(bs, p + 2, i.body);
    if i.Loop? {
      var b := Blk(true, p + |EncI(i)|, p + 2, m.sp);
      LongLoop(md, mb, fp, bs, p + 2, blocks, b, i.body, m, k);
      Turns(mb, fp, bs, f, t, p + 2, k);
      ExecMono(mb, fp, bs, f, k, k + 1);
    } else {
      var m' := if i.If? then m.(sp := m.sp - 1) else m;
      var b := Blk(false, p + |EncI(i)|, 0, m'.sp);
      LongNest(md, mb, fp, bs, f, t, p + 2, p + 2, b, i.body, m', k);
    }
  }

  lemma {:induction false} LongIfElse(md: Module<Code>, mb: Module<seq<byte>>, fp: nat, bs: seq<byte>, p: nat, blocks: seq<Blk>,
                                      i: Instr, m: Mem, k: nat)
    requires Ready(md, mb) && WfI(i) && Stands(bs, p, EncI(i)) && i.IfElse?
    requires EvalI(md, fp, |blocks|, i, m, k).OutOfFuel?
    ensures Exec(mb, fp, bs, Frame(p, m, blocks), k).Fuel?
    decreases k, i, 1
  {
    hide Exec, Fetch, Ready, EvalC, EvalLoop, EncC, SkipEnd, SkipElse, Stands;
    var f := Frame(p, m, blocks);
    var q := p + 2 + |EncC(i.body)|;
    StandsSplit(bs, p, [0x04, i.bt], EncC(i.body) + ([0x05] + (EncC(i.other) + [0x0b])));
    StandsSplit(bs, p + 2, EncC(i.body), [0x05] + (EncC(i.other) + [0x0b]));
    StandsSplit(bs, q, [0x05], EncC(i.other) + [0x0b]);
    StandsSplit(bs, q + 1, EncC(i.other), [0x0b]);
    FetchOpen(bs, p, 0x04, i.bt);
    LandElse(bs, p + 2, i.body, i.other);
    var m' := m.(sp := m.sp - 1);
    var b := Blk(false, p + |EncI(i)|, 0, m'.sp);
    if m.stack[m.sp - 1] != 0 {
      LongNest(md, mb, fp, bs, f, TIf, p + 2, p + 2, b, i.body, m', k);
    } else {
      LongNest(md, mb, fp, bs, f, TIf, p + 2, q + 1, b, i.other, m', k);
    }
  }

  lemma {:induction false} LongCall(md: Module<Code>, mb: Module<seq<byte>>, fp: nat, bs: seq<byte>, p: nat, blocks: seq<Blk>,
                                    i: Instr, m: Mem, k: nat)
    requires Ready(md, mb) && i.Call? && WfI(i) && Stands(bs, p, EncI(i))
    requires EvalI(md, fp, |blocks|, i, m, k).OutOfFuel?
    ensures Exec(mb, fp, bs, Frame(p, m, blocks), k).Fuel?
    decreases k, i, 1
  {
    hide Fetch, Ready, EvalFn, CallFn, EncU, Stands;
    var fi := i.f;
    FetchIndexed(bs, p, 0x10, fi);
    SameArgs(md, mb, fi, m);
    if k > 0 {
      var (sig, args) := Args(md, fi, m).value;
      LongFn(md, mb, fp, fi, args, m.stack, m.sp - sig.params, k - 1);
      CallTurn(mb, fp, bs, Frame(p, m, blocks), fi, p + 1 + |EncU(fi)|, k - 1);
    }
  }

  lemma {:induction false} LongFn(md: Module<Code>, mb: Module<seq<byte>>, fp: nat, fi: nat, args: seq<int>, stack: Stack, sp: Sp, k: nat)
    requires Ready(md, mb) && EvalFn(md, fp, fi, args, stack, sp, k).OutOfFuel?
    ensures CallFn(mb, fp, fi, args, stack, sp, k).Fuel?
    decreases k
  {
    hide Exec, EncC, EvalC, WfC;
    var fn := md.funcs[fi - |md.imports|];
    var bs := EncC(fn.code) + [0x0b];
    assert mb.funcs[fi - |md.imports|] == Assembled(fn);
    assert Stands(bs, 0, EncC(fn.code));
    LongCode(md, mb, fp + 1, bs, 0, [], fn.code, Entry(fn, args, stack, sp), k);
  }

  // ---- The two meanings are one ----

  /** What the structured semantics computes, the interpreter computes on the encoding. */
  lemma Simulates(md: Module<Code>, fp: nat, fi: nat, args: seq<int>, stack: Stack, sp: Sp, k: nat) returns (fuel: nat)
    requires WfM(md)
    ensures var o, r := EvalFn(md, fp, fi, args, stack, sp, k), CallFn(Assemble(md), fp, fi, args, stack, sp, fuel);
      && (o.Exit? ==> r == Ret(o.stack, o.v, 0))
      && (o.Fails? ==> r == Fault)
  {
    hide EvalFn, CallFn;
    fuel := SimFn(md, Assemble(md), fp, fi, args, stack, sp, k, 0);
  }

  /** What the interpreter computes on the encoding, the structured semantics computes. */
  lemma Reflects(md: Module<Code>, fp: nat, fi: nat, args: seq<int>, stack: Stack, sp: Sp, fuel: nat)
    requires WfM(md)
    ensures var o, r := EvalFn(md, fp, fi, args, stack, sp, fuel), CallFn(Assemble(md), fp, fi, args, stack, sp, fuel);
      && (r.Ret? ==> o == Exit(r.stack, r.v))
      && (r.Fault? ==> o == Fails)
  {
    hide EvalFn, CallFn, Assemble;
    var mb := Assemble(md);
    if EvalFn(md, fp, fi, args, stack, sp, fuel).OutOfFuel? {
      LongFn(md, mb, fp, fi, args, stack, sp, fuel);
    } else {
      var cost := SimFn(md, mb, fp, fi, args, stack, sp, fuel, fuel);
      CallMono(mb, fp, fi, args, stack, sp, fuel, fuel + cost);
    }
  }
}
