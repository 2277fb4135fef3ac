/**
 The interpreter itself: one operand stack shared by all frames and changed in place, a dispatch
 loop over the bytes, and recursion for calls. Each method is proved against the flat machine.
 */
module Wasm {
  import opened Leb128
  import opened WasmCode
  import opened WasmMachine
  import opened WasmSim
  import opened WasmArith

  datatype Status = Finished | Faulted | Exhausted

  /** Where a turn of the loop leaves the frame. */
  datatype Turned = Went(pc: nat, locals: Locals, blocks: seq<Blk>) | Stopped(v: int) | Trapped | Calls(fi: nat)

  ghost predicate Same(mv: Move, tn: Turned, stack: Stack, sp: Sp, count: nat) {
    match mv
    case Go(f) => tn.Went? && f == Frame(tn.pc, Mem(stack, sp, tn.locals, count), tn.blocks)
    case Stop(v) => tn == Stopped(v)
    case Trap => tn.Trapped?
    case Enter(fi) => tn == Calls(fi)
  }

  method FetchInstr(bs: seq<byte>, pc: nat) returns (t: Tok, q: nat)
    requires pc < |bs|
    ensures (t, q) == Fetch(bs, pc)
  {
    var b := bs[pc];
    if HasIndex(b) {
      var n;
      n, q := ReadU32(bs, pc + 1);
      t := Indexed(b, n);
    } else if b == 0x41 {
      var v;
      v, q := ReadS32(bs, pc + 1);
      t := TPlain(Const(v));
    } else if Opens(b) {
      t, q := if b == 0x02 then TBlock else if b == 0x03 then TLoop else TIf, pc + 2;
    } else {
      t, q := Short(b), pc + 1;
    }
  }

  class Interpreter {
    const md: Module<seq<byte>>
    const stack: array<int>
    var sp: Sp
    var fp: nat

    constructor (md0: Module<seq<byte>>)
      ensures Valid() && md == md0 && sp == 0 && fp == 0 && fresh(stack)
    {
      md, stack, sp, fp := md0, new int[STACK](_ => 0), 0, 0;
    }

    ghost predicate Valid()
      reads this
    {
      stack.Length == STACK
    }

    ghost function M(locals: Locals, count: nat): Mem
      requires Valid()
      reads this, stack
    {
      Mem(stack[..], sp, locals, count)
    }

    method PushValue(v: int, ghost locals: Locals, ghost count: nat)
      requires Valid()
      modifies this`sp, stack
      ensures M(locals, count) == Push(old(M(locals, count)), v)
    {
      if sp < STACK {
        stack[sp] := v;
        sp := sp + 1;
      }
    }

    method Binary(b: BinOp, ghost locals: Locals, ghost count: nat) returns (ok: bool)
      requires Valid()
      modifies this`sp, stack
      ensures ok == Apply(Bin(b), old(M(locals, count))).Some?
      ensures if ok then M(locals, count) == Apply(Bin(b), old(M(locals, count))).value else stack[..] == old(stack[..])
      ensures old(sp) >= 2 && Word(old(stack[sp - 2])) && Word(old(stack[sp - 1])) ==>
                if ok then sp == old(sp) - 1 && Means(Opcode(b), old(stack[sp - 2]), old(stack[sp - 1]), stack[sp - 1])
                else Overflows(Opcode(b), old(stack[sp - 2]), old(stack[sp - 1]))
    {
      hide Alu, Means, Overflows, Opcode;
      ok := true;
      if sp >= 2 {
        ghost var x, y := stack[sp - 2], stack[sp - 1];
        if Word(x) && Word(y) { AluMeans(b, x, y); }
        var r := Alu(b, stack[sp - 2], stack[sp - 1]);
        if r.None? {
          return false;
        }
        sp := sp - 1;
        stack[sp - 1] := r.value;
      }
    }

    method PlainOp(op: Op, q: nat, locals: Locals, count: nat, blocks: seq<Blk>) returns (tn: Turned)
      requires Valid()
      modifies this`sp, stack
      ensures match Apply(op, old(M(locals, count)))
        case None => tn.Trapped? && stack[..] == old(stack[..])
        case Some(m) => tn.Went? && tn.pc == q && tn.blocks == blocks && M(tn.locals, count) == m
    {
      hide Alu;
      var locals' := locals;
      match op {
        case Nop =>
        case Drop => sp := if sp > 0 then sp - 1 else sp;
        case Eqz =>
          if sp > 0 {
            stack[sp - 1] := if stack[sp - 1] == 0 then 1 else 0;
          }
        case Bin(b) =>
          var ok := Binary(b, locals, count);
          if !ok {
            return Trapped;
          }
        case Const(v) => PushValue(v, locals, count);
        case Get(i) =>
          if i < count && i < LOCALS {
            PushValue(locals[i], locals, count);
          }
        case Set(i) =>
          if sp > 0 && i < count && i < LOCALS {
            sp := sp - 1;
            locals' := locals'[i := stack[sp]];
          }
        case Tee(i) =>
          if sp > 0 && i < count && i < LOCALS {
            locals' := locals'[i := stack[sp - 1]];
          }
      }
      tn := Went(q, locals', blocks);
    }

    method OpenBlock(bs: seq<byte>, q: nat, loop: bool, locals: Locals, blocks: seq<Blk>, ghost pc: nat, ghost m: Mem)
      returns (tn: Turned)
      requires Valid() && m == M(locals, m.count)
      ensures Same(Open(Frame(pc, m, blocks), m, Blk(loop, SkipEnd(bs, q, 1), if loop then q else 0, sp), q),
                   tn, stack[..], sp, m.count)
    {
      if |blocks| >= DEPTH {
        return Stopped(0);
      }
      var end := SkipBlockToEnd(bs, q);
      tn := Went(q, locals, blocks + [Blk(loop, end, if loop then q else 0, sp)]);
    }

    method TopValue(ghost locals: Locals, ghost count: nat) returns (v: int)
      requires Valid()
      ensures v == Top(M(locals, count))
    {
      v := if sp > 0 then stack[sp - 1] else 0;
    }

    method TakeBranch(d: nat, locals: Locals, count: nat, blocks: seq<Blk>, ghost pc: nat) returns (tn: Turned)
      requires Valid()
      modifies this`sp
      ensures Same(Branch(Frame(pc, old(M(locals, count)), blocks), d, old(M(locals, count))), tn, stack[..], sp, count)
    {
      if d >= |blocks| {
        var v := TopValue(locals, count);
        return Stopped(v);
      }
      var i := |blocks| - 1 - d;
      var b := blocks[i];
      sp := b.height;
      tn := Went(if b.loop then b.start else b.cont, locals, blocks[..if b.loop then i + 1 else i]);
    }

    method EnterIf(bs: seq<byte>, q: nat, locals: Locals, count: nat, blocks: seq<Blk>, ghost pc: nat) returns (tn: Turned)
      requires Valid()
      modifies this`sp
      ensures Same(Turn(bs, Frame(pc, old(M(locals, count)), blocks), TIf, q), tn, stack[..], sp, count)
    {
      hide SkipEnd, SkipElse;
      if sp == 0 {
        return Stopped(0);
      }
      sp := sp - 1;
      if stack[sp] != 0 {
        tn := OpenBlock(bs, q, false, locals, blocks, pc, M(locals, count));
      } else {
        var r, found := SkipToEndOrElse(bs, q);
        if found {
          tn := OpenBlock(bs, r, false, locals, blocks, pc, M(locals, count));
        } else {
          tn := Went(r, locals, blocks);
        }
      }
    }

    /** One turn of the dispatch loop, other than the work of a call. */
    method Step(bs: seq<byte>, t: Tok, q: nat, locals: Locals, count: nat, blocks: seq<Blk>, ghost pc: nat) returns (tn: Turned)
      requires Valid()
      modifies this`sp, stack
      ensures Same(Turn(bs, Frame(pc, old(M(locals, count)), blocks), t, q), tn, stack[..], sp, count)
      ensures tn.Went? || stack[..] == old(stack[..])
      ensures tn.Calls? ==> sp == old(sp)
    {
      hide SkipEnd, SkipElse, Apply;
      match t
      case TPlain(op) => tn := PlainOp(op, q, locals, count, blocks);
      case TBlock => tn := OpenBlock(bs, q, false, locals, blocks, pc, M(locals, count));
      case TLoop => tn := OpenBlock(bs, q, true, locals, blocks, pc, M(locals, count));
      case TIf => tn := EnterIf(bs, q, locals, count, blocks, pc);
      case TElse =>
        if |blocks| > 0 {
          tn := Went(blocks[|blocks| - 1].cont, locals, blocks[..|blocks| - 1]);
        } else {
          tn := Went(q, locals, blocks);
        }
      case TEnd =>
        if |blocks| > 0 {
          tn := Went(q, locals, blocks[..|blocks| - 1]);
        } else {
          var v := TopValue(locals, count);
          tn := Stopped(v);
        }
      case TBr(d) => tn := TakeBranch(d, locals, count, blocks, pc);
      case TBrIf(d) =>
        if sp == 0 {
          return Stopped(0);
        }
        sp := sp - 1;
        if stack[sp] != 0 {
          tn := TakeBranch(d, locals, count, blocks, pc);
        } else {
          tn := Went(q, locals, blocks);
        }
      case TReturn =>
        var v := TopValue(locals, count);
        tn := Stopped(v);
      case TUnreachable => tn := Stopped(0);
      case TCall(fi) => tn := Calls(fi);
      case TBad => tn := Stopped(0);
    }

    /** What a run leaves in the interpreter. */
    ghost predicate Left(r: Res, status: Status, v: int, left: nat)
      requires Valid()
      reads this, stack
    {
      match r
      case Fuel => status == Exhausted
      case Fault => status == Faulted
      case Ret(s, x, l) => status == Finished && stack[..] == s && v == x && left == l
    }

    method ExecCode(bs: seq<byte>, locals0: Locals, count: nat, fuel: nat) returns (status: Status, v: int, left: nat)
      requires Valid()
      modifies this`sp, this`fp, stack
      ensures fp == old(fp) && left <= fuel
      ensures Left(Exec(md, old(fp), bs, Frame(0, old(M(locals0, count)), []), fuel), status, v, left)
      decreases fuel, 0
    {
      hide Exec, Fetch, Turn, CallFn, Args, SigOf, Back;
      var pc: nat, locals, blocks: seq<Blk> := 0, locals0, [];
      v, left := 0, fuel;
      ghost var goal := Exec(md, fp, bs, Frame(0, M(locals, count), []), fuel);
      while left > 0 && pc < |bs|
        invariant fp == old(fp) && 0 <= left <= fuel
        invariant goal == Exec(md, fp, bs, Frame(pc, M(locals, count), blocks), left)
        decreases left
      {
        var t, q := FetchInstr(bs, pc);
        ghost var f := Frame(pc, M(locals, count), blocks);
        Turns(md, fp, bs, f, t, q, left - 1);
        var tn := Step(bs, t, q, locals, count, blocks, pc);
        left := left - 1;
        match tn
        case Went(pc', locals', blocks') => pc, locals, blocks := pc', locals', blocks';
        case Stopped(x) => return Finished, x, left;
        case Trapped => return Faulted, 0, left;
        case Calls(fi) =>
          EnterIsCall(bs, f, t, q);
          CallTurn(md, fp, bs, f, fi, q, left);
          var st, x, rest := DoCall(fi, locals, count, left);
          if st.Some? {
            return st.value, x, rest;
          }
          pc, left := q, rest;
      }
      ExecEnds(md, fp, bs, Frame(pc, M(locals, count), blocks), left);
      if left == 0 {
        status := Exhausted;
      } else {
        v := TopValue(locals, count);
        status, left := Finished, left - 1;
      }
    }

    /** A call as the caller sees it: no status means it goes on, with the result pushed. */
    ghost predicate Called(a: Option<(Sig, seq<int>)>, r: Res, m: Mem, locals: Locals, status: Option<Status>, v: int, left: nat, fuel: nat)
      requires Valid() && (a.Some? ==> a.value.0.params <= m.sp)
      reads this, stack
    {
      if a.None? then status == Some(Finished) && v == 0 && left == fuel && stack[..] == m.stack
      else match r
        case Fuel => status == Some(Exhausted)
        case Fault => status == Some(Faulted)
        case Ret(s, x, l) => status == None && left == l && M(locals, m.count) == Back(m, a.value.0, s, x)
    }

    ghost function Callee(fi: nat, m: Mem, fuel: nat): Res
      reads this
    {
      match Args(md, fi, m)
      case None => Fuel
      case Some((sig, args)) => CallFn(md, fp, fi, args, m.stack, m.sp - sig.params, fuel)
    }

    method DoCall(fi: nat, locals: Locals, count: nat, fuel: nat) returns (status: Option<Status>, v: int, left: nat)
      requires Valid()
      modifies this`sp, this`fp, stack
      ensures fp == old(fp) && left <= fuel
      ensures Called(Args(md, fi, old(M(locals, count))), old(Callee(fi, M(locals, count), fuel)),
                     old(M(locals, count)), locals, status, v, left, fuel)
      decreases fuel, 2
    {
      hide CallFn;
      var sig := SigOf(md, fi);
      if sig.None? || sp < sig.value.params {
        return Some(Finished), 0, fuel;
      }
      var n := sig.value.params;
      var args := stack[sp - n..sp];
      assert args == old(stack[..])[sp - n..sp];
      sp := sp - n;
      var st;
      st, v, left := ExecFunction(fi, args, fuel);
      if st != Finished {
        return Some(st), v, left;
      }
      if sig.value.result {
        PushValue(v, locals, count);
      }
      status := None;
    }

    method ExecFunction(fi: nat, args: seq<int>, fuel: nat) returns (status: Status, v: int, left: nat)
      requires Valid()
      modifies this`sp, this`fp, stack
      ensures fp == old(fp) && left <= fuel && sp == old(sp)
      ensures Left(CallFn(md, old(fp), fi, args, old(stack[..]), old(sp), fuel), status, v, left)
      decreases fuel, 1
    {
      hide Exec;
      if fi < |md.imports| {
        return Finished, md.host(fi, args), fuel;
      }
      if fi - |md.imports| >= |md.funcs| || fp >= CALLS {
        return Finished, 0, fuel;
      }
      var fn := md.funcs[fi - |md.imports|];
      var base := sp;
      fp := fp + 1;
      status, v, left := ExecCode(fn.code, seq(LOCALS, i requires 0 <= i => if i < |args| then args[i] else 0), fn.count, fuel);
      fp := fp - 1;
      sp := base;
    }

    /**
     Calling a function of an assembled module from an empty call stack: the interpreter finishes
     with the value and stack of the structured semantics, faults where it fails, and runs out of
     fuel where the semantics has no result yet, or where `need`, which is more, makes it finish or fault.
     */
    method Invoke(ghost source: Module<Code>, fi: nat, args: seq<int>, fuel: nat) returns (status: Status, v: int, ghost need: nat)
      requires Valid() && WfM(source) && md == Assemble(source) && fp == 0
      modifies this`sp, this`fp, stack
      ensures status.Finished? ==> EvalFn(source, 0, fi, args, old(stack[..]), old(sp), fuel) == Exit(stack[..], v)
      ensures status.Faulted? ==> EvalFn(source, 0, fi, args, old(stack[..]), old(sp), fuel) == Fails
      ensures status.Exhausted? ==>
                var o := EvalFn(source, 0, fi, args, old(stack[..]), old(sp), fuel);
                o.Exit? || o.Fails? ==> need > fuel && CallFn(md, 0, fi, args, old(stack[..]), old(sp), need) != Fuel
      ensures sp == old(sp) && fp == 0
    {
      hide EvalFn, CallFn, Assemble;
      Reflects(source, 0, fi, args, stack[..], sp, fuel);
      need := Simulates(source, 0, fi, args, stack[..], sp, fuel);
      if need <= fuel { CallMono(md, 0, fi, args, stack[..], sp, need, fuel); }
      var left;
      status, v, left := ExecFunction(fi, args, fuel);
    }
  }
}
