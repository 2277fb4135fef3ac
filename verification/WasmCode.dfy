/**
 Structured WebAssembly bodies, their byte encoding (section 5.4.1 of the WebAssembly Core
 Specification 1.0), the interpreter's instruction decoding and its two scanners, which rediscover
 the structure by counting openings and ends.
 */
module WasmCode {
  import opened Leb128

  datatype BinOp = Eq | Ne | LtS | GtS | LeS | GeS | Add | Sub | Mul | DivS | RemS | AndB | OrB

  datatype Op = Nop | Drop | Eqz | Bin(b: BinOp) | Const(v: int) | Get(i: nat) | Set(i: nat) | Tee(i: nat)

  datatype Code = Done | Seq(head: Instr, tail: Code)

  datatype Instr =
    | Plain(op: Op)
    | Br(d: nat)
    | BrIf(d: nat)
    | Call(f: nat)
    | Return
    | Unreachable
    | Block(bt: byte, body: Code)
    | Loop(bt: byte, body: Code)
    | If(bt: byte, body: Code)
    | IfElse(bt: byte, body: Code, other: Code)

  // ---- Immediates that the interpreter's signed casts keep ----

  const IMM := 0x8000_0000

  predicate WfOp(op: Op) {
    match op
    case Const(v) => -IMM <= v < IMM
    case Get(i) => i < IMM
    case Set(i) => i < IMM
    case Tee(i) => i < IMM
    case _ => true
  }

  predicate WfI(i: Instr)
    decreases i
  {
    match i
    case Plain(op) => WfOp(op)
    case Br(d) => d < IMM
    case BrIf(d) => d < IMM
    case Call(f) => f < IMM
    case Block(_, b) => WfC(b)
    case Loop(_, b) => WfC(b)
    case If(_, b) => WfC(b)
    case IfElse(_, b, e) => WfC(b) && WfC(e)
    case _ => true
  }

  predicate WfC(c: Code)
    decreases c
  {
    c.Done? || (WfI(c.head) && WfC(c.tail))
  }

  // ---- Encoding ----

  function Opcode(b: BinOp): byte {
    match b
    case Eq => 0x46 case Ne => 0x47 case LtS => 0x48 case GtS => 0x4a case LeS => 0x4c case GeS => 0x4e
    case Add => 0x6a case Sub => 0x6b case Mul => 0x6c case DivS => 0x6d case RemS => 0x6f
    case AndB => 0x71 case OrB => 0x72
  }

  function EncOp(op: Op): (e: seq<byte>)
    ensures |e| > 0
  {
    match op
    case Nop => [0x01]
    case Drop => [0x1a]
    case Eqz => [0x45]
    case Bin(b) => [Opcode(b)]
    case Const(v) => [0x41] + EncS(v)
    case Get(i) => [0x20] + EncU(i)
    case Set(i) => [0x21] + EncU(i)
    case Tee(i) => [0x22] + EncU(i)
  }

  function EncI(i: Instr): (e: seq<byte>)
    ensures |e| > 0
    decreases i
  {
    match i
    case Plain(op) => EncOp(op)
    case Br(d) => [0x0c] + EncU(d)
    case BrIf(d) => [0x0d] + EncU(d)
    case Call(f) => [0x10] + EncU(f)
    case Return => [0x0f]
    case Unreachable => [0x00]
    case Block(bt, b) => [0x02, bt] + (EncC(b) + [0x0b])
    case Loop(bt, b) => [0x03, bt] + (EncC(b) + [0x0b])
    case If(bt, b) => [0x04, bt] + (EncC(b) + [0x0b])
    case IfElse(bt, b, e) => [0x04, bt] + (EncC(b) + ([0x05] + (EncC(e) + [0x0b])))
  }

  function EncC(c: Code): seq<byte>
    decreases c
  {
    if c.Done? then [] else EncI(c.head) + EncC(c.tail)
  }

  // ---- Decoding one instruction ----

  datatype Tok =
    | TPlain(op: Op) | TBr(d: nat) | TBrIf(d: nat) | TCall(f: nat) | TReturn | TUnreachable
    | TBlock | TLoop | TIf | TElse | TEnd | TBad

  function BinOf(b: byte): Tok {
    if b == 0x46 then TPlain(Bin(Eq)) else if b == 0x47 then TPlain(Bin(Ne)) else if b == 0x48 then TPlain(Bin(LtS))
    else if b == 0x4a then TPlain(Bin(GtS)) else if b == 0x4c then TPlain(Bin(LeS)) else if b == 0x4e then TPlain(Bin(GeS))
    else if b == 0x6a then TPlain(Bin(Add)) else if b == 0x6b then TPlain(Bin(Sub)) else if b == 0x6c then TPlain(Bin(Mul))
    else if b == 0x6d then TPlain(Bin(DivS)) else if b == 0x6f then TPlain(Bin(RemS))
    else if b == 0x71 then TPlain(Bin(AndB)) else if b == 0x72 then TPlain(Bin(OrB)) else TBad
  }

  /** An instruction whose immediate is an unsigned number. */
  function Indexed(b: byte, n: nat): Tok {
    if b == 0x20 then TPlain(Get(n)) else if b == 0x21 then TPlain(Set(n)) else if b == 0x22 then TPlain(Tee(n))
    else if b == 0x0c then TBr(n) else if b == 0x0d then TBrIf(n) else TCall(n)
  }

  predicate HasIndex(b: byte) {
    b == 0x20 || b == 0x21 || b == 0x22 || b == 0x0c || b == 0x0d || b == 0x10
  }

  predicate Opens(b: byte) {
    b == 0x02 || b == 0x03 || b == 0x04
  }

  function Short(b: byte): Tok {
    if b == 0x00 then TUnreachable else if b == 0x01 then TPlain(Nop) else if b == 0x05 then TElse
    else if b == 0x0b then TEnd else if b == 0x0f then TReturn else if b == 0x1a then TPlain(Drop)
    else if b == 0x45 then TPlain(Eqz) else BinOf(b)
  }

  /** The instruction at `pc` and the position behind its immediates. */
  function Fetch(bs: seq<byte>, pc: nat): (r: (Tok, nat))
    requires pc < |bs|
    ensures r.1 > pc
  {
    var b := bs[pc];
    if HasIndex(b) then
      var (n, q) := DecU(bs, pc + 1, 0, 0);
      (Indexed(b, n), q)
    else if b == 0x41 then
      var (v, q) := DecS(bs, pc + 1, 0, 0);
      (TPlain(Const(v)), q)
    else if Opens(b) then
      (if b == 0x02 then TBlock else if b == 0x03 then TLoop else TIf, pc + 2)
    else
      (Short(b), pc + 1)
  }

  /** The opcodes of section 5.4 of the WebAssembly Core Specification 1.0, as they are decoded and encoded. */
  lemma Opcodes(f: nat, bt: byte, b: Code, e: Code)
    ensures Short(0x00) == TUnreachable && Short(0x01) == TPlain(Nop) && Short(0x05) == TElse && Short(0x0b) == TEnd
    ensures Short(0x0f) == TReturn && Short(0x1a) == TPlain(Drop) && Short(0x45) == TPlain(Eqz)
    ensures Indexed(0x0c, f) == TBr(f) && Indexed(0x0d, f) == TBrIf(f) && Indexed(0x10, f) == TCall(f)
    ensures Indexed(0x20, f) == TPlain(Get(f)) && Indexed(0x21, f) == TPlain(Set(f)) && Indexed(0x22, f) == TPlain(Tee(f))
    ensures Fetch([0x02, bt], 0) == (TBlock, 2) && Fetch([0x03, bt], 0) == (TLoop, 2) && Fetch([0x04, bt], 0) == (TIf, 2)
    ensures EncI(Block(bt, b)) == [0x02, bt] + EncC(b) + [0x0b] && EncI(Loop(bt, b)) == [0x03, bt] + EncC(b) + [0x0b]
    ensures EncI(IfElse(bt, b, e)) == [0x04, bt] + EncC(b) + [0x05] + EncC(e) + [0x0b]
  {
    hide EncC, DecU, DecS;
  }

  // ---- The scanners ----

  /** Where a scanner goes on after the instruction at `pc`. */
  function Behind(bs: seq<byte>, pc: nat): (q: nat)
    requires pc < |bs|
    ensures q > pc
  {
    var b := bs[pc];
    if Opens(b) then pc + 2
    else if HasIndex(b) then DecU(bs, pc + 1, 0, 0).1
    else if b == 0x41 then DecS(bs, pc + 1, 0, 0).1
    else pc + 1
  }

  function SkipEnd(bs: seq<byte>, pc: nat, depth: nat): (q: nat)
    decreases |bs| - pc
  {
    if pc >= |bs| || depth == 0 then pc
    else if Opens(bs[pc]) then SkipEnd(bs, Behind(bs, pc), depth + 1)
    else if bs[pc] == 0x0b then SkipEnd(bs, Behind(bs, pc), depth - 1)
    else SkipEnd(bs, Behind(bs, pc), depth)
  }

  function SkipElse(bs: seq<byte>, pc: nat, depth: nat): (r: (nat, bool))
    decreases |bs| - pc
  {
    if pc >= |bs| || depth == 0 then (pc, false)
    else if Opens(bs[pc]) then SkipElse(bs, Behind(bs, pc), depth + 1)
    else if bs[pc] == 0x05 && depth == 1 then (Behind(bs, pc), true)
    else if bs[pc] == 0x0b then SkipElse(bs, Behind(bs, pc), depth - 1)
    else SkipElse(bs, Behind(bs, pc), depth)
  }

  method SkipBlockToEnd(bs: seq<byte>, pc0: nat) returns (pc: nat)
    ensures pc == SkipEnd(bs, pc0, 1)
  {
    pc := pc0;
    var depth := 1;
    while pc < |bs| && depth > 0
      invariant depth >= 0 && SkipEnd(bs, pc0, 1) == SkipEnd(bs, pc, depth)
      decreases |bs| - pc
    {
      var op := bs[pc];
      if Opens(op) {
        pc, depth := pc + 2, depth + 1;
      } else if op == 0x0b {
        pc, depth := pc + 1, depth - 1;
      } else {
        pc := SkipImmediate(bs, pc);
      }
    }
  }

  method SkipToEndOrElse(bs: seq<byte>, pc0: nat) returns (pc: nat, foundElse: bool)
    ensures (pc, foundElse) == SkipElse(bs, pc0, 1)
  {
    pc, foundElse := pc0, false;
    var depth := 1;
    while pc < |bs| && depth > 0
      invariant depth >= 0 && !foundElse && SkipElse(bs, pc0, 1) == SkipElse(bs, pc, depth)
      decreases |bs| - pc
    {
      var op := bs[pc];
      if Opens(op) {
        pc, depth := pc + 2, depth + 1;
      } else if op == 0x05 && depth == 1 {
        return pc + 1, true;
      } else if op == 0x0b {
        pc, depth := pc + 1, depth - 1;
      } else {
        pc := SkipImmediate(bs, pc);
      }
    }
  }

  method SkipImmediate(bs: seq<byte>, pc: nat) returns (q: nat)
    requires pc < |bs| && !Opens(bs[pc])
    ensures q == Behind(bs, pc)
  {
    q := pc + 1;
    if HasIndex(bs[pc]) {
      var n;
      n, q := ReadU32(bs, pc + 1);
    } else if bs[pc] == 0x41 {
      var v;
      v, q := ReadS32(bs, pc + 1);
    }
  }

  // ---- Decoding undoes encoding ----

  lemma FetchIndexed(bs: seq<byte>, p: nat, b: byte, n: nat)
    requires HasIndex(b) && n < IMM && Stands(bs, p, [b] + EncU(n))
    ensures p < |bs| && Fetch(bs, p) == (Indexed(b, n), p + 1 + |EncU(n)|) && bs[p] == b && Behind(bs, p) == p + 1 + |EncU(n)|
  {
    StandsSplit(bs, p, [b], EncU(n));
    RoundTripU(n, bs, p + 1);
  }

  lemma FetchConst(bs: seq<byte>, p: nat, v: int)
    requires -IMM <= v < IMM && Stands(bs, p, [0x41] + EncS(v))
    ensures p < |bs| && Fetch(bs, p) == (TPlain(Const(v)), p + 1 + |EncS(v)|) && bs[p] == 0x41 && Behind(bs, p) == p + 1 + |EncS(v)|
  {
    StandsSplit(bs, p, [0x41], EncS(v));
    RoundTripS(v, bs, p + 1);
  }

  lemma FetchBin(bs: seq<byte>, p: nat, b: BinOp)
    requires Stands(bs, p, [Opcode(b)])
    ensures p < |bs| && Fetch(bs, p) == (TPlain(Bin(b)), p + 1) && bs[p] == Opcode(b) && Behind(bs, p) == p + 1
  {
    hide DecU, DecS;
    assert bs[p] == Opcode(b);
  }

  lemma FetchPlain(bs: seq<byte>, p: nat, op: Op)
    requires WfOp(op) && Stands(bs, p, EncOp(op))
    ensures p < |bs| && Fetch(bs, p) == (TPlain(op), p + |EncOp(op)|) && Behind(bs, p) == p + |EncOp(op)|
    ensures !Opens(bs[p]) && bs[p] != 0x05 && bs[p] != 0x0b
  {
    match op
    case Const(v) => FetchConst(bs, p, v);
    case Get(i) => FetchIndexed(bs, p, 0x20, i);
    case Set(i) => FetchIndexed(bs, p, 0x21, i);
    case Tee(i) => FetchIndexed(bs, p, 0x22, i);
    case Bin(b) => FetchBin(bs, p, b);
    case _ => assert bs[p] == EncOp(op)[0];
  }

  /** The scanner's table of instruction lengths is the interpreter's, on any bytes. */
  lemma SameLengths(bs: seq<byte>, pc: nat)
    requires pc < |bs|
    ensures Behind(bs, pc) == Fetch(bs, pc).1
  {
  }

  // ---- The scanners pass over whole instructions ----

  /** Both scanners, at nesting `d` in `p`, get to nesting `e` in `q`. */
  ghost predicate Passes(bs: seq<byte>, p: nat, d: nat, q: nat, e: nat) {
    SkipEnd(bs, p, d) == SkipEnd(bs, q, e) && SkipElse(bs, p, d) == SkipElse(bs, q, e)
  }

  /** One instruction that neither opens nor closes anything. */
  lemma PassOne(bs: seq<byte>, p: nat, d: nat)
    requires p < |bs| && d >= 1 && !Opens(bs[p]) && bs[p] != 0x0b && (bs[p] == 0x05 ==> d >= 2)
    ensures Passes(bs, p, d, Behind(bs, p), d)
  {
    hide DecU, DecS, Behind;
  }

  lemma PassOpen(bs: seq<byte>, p: nat, d: nat, op: byte, bt: byte)
    requires d >= 1 && Opens(op) && Stands(bs, p, [op, bt])
    ensures Passes(bs, p, d, p + 2, d + 1)
  {
    hide DecU, DecS;
    assert bs[p] == op;
  }

  lemma PassEnd(bs: seq<byte>, p: nat, d: nat)
    requires d >= 1 && Stands(bs, p, [0x0b])
    ensures Passes(bs, p, d, p + 1, d - 1)
  {
    hide DecU, DecS;
    assert bs[p] == 0x0b;
  }

  lemma PassElse(bs: seq<byte>, p: nat, d: nat)
    requires d >= 2 && Stands(bs, p, [0x05])
    ensures Passes(bs, p, d, p + 1, d)
  {
    assert bs[p] == 0x05;
    PassOne(bs, p, d);
  }

  lemma {:induction false} PassCode(bs: seq<byte>, p: nat, c: Code, d: nat)
    requires d >= 1 && WfC(c) && Stands(bs, p, EncC(c))
    ensures Passes(bs, p, d, p + |EncC(c)|, d)
    decreases c, 0
  {
    hide Passes, SkipEnd, SkipElse, EncI, WfI, Stands;
    if c.Seq? {
      StandsSplit(bs, p, EncI(c.head), EncC(c.tail));
      PassInstr(bs, p, c.head, d);
      PassCode(bs, p + |EncI(c.head)|, c.tail, d);
      PassTrans(bs, p, d, p + |EncI(c.head)|, d, p + |EncC(c)|, d);
    } else {
      PassNone(bs, p, d);
    }
  }

  lemma PassNone(bs: seq<byte>, p: nat, d: nat)
    ensures Passes(bs, p, d, p, d)
  {
  }

  lemma PassTrans(bs: seq<byte>, p: nat, d: nat, q: nat, e: nat, r: nat, f: nat)
    requires Passes(bs, p, d, q, e) && Passes(bs, q, e, r, f)
    ensures Passes(bs, p, d, r, f)
  {
  }

  /** A body and the end that closes it. */
  lemma {:induction false} PassBody(bs: seq<byte>, p: nat, c: Code, d: nat)
    requires d >= 1 && WfC(c) && Stands(bs, p, EncC(c) + [0x0b])
    ensures Passes(bs, p, d, p + |EncC(c)| + 1, d - 1)
    decreases c, 1
  {
    hide Passes, SkipEnd, SkipElse, EncC, WfC, Stands;
    StandsSplit(bs, p, EncC(c), [0x0b]);
    PassCode(bs, p, c, d);
    PassEnd(bs, p + |EncC(c)|, d);
    PassTrans(bs, p, d, p + |EncC(c)|, d, p + |EncC(c)| + 1, d - 1);
  }

  lemma {:induction false} PassNested(bs: seq<byte>, p: nat, op: byte, bt: byte, c: Code, d: nat)
    requires d >= 1 && WfC(c) && Opens(op) && Stands(bs, p, [op, bt] + (EncC(c) + [0x0b]))
    ensures Passes(bs, p, d, p + 2 + |EncC(c)| + 1, d)
    decreases c, 2
  {
    hide Passes, SkipEnd, SkipElse, EncC, WfC, Stands;
    StandsSplit(bs, p, [op, bt], EncC(c) + [0x0b]);
    PassOpen(bs, p, d, op, bt);
    PassBody(bs, p + 2, c, d + 1);
    PassTrans(bs, p, d, p + 2, d + 1, p + 2 + |EncC(c)| + 1, d);
  }

  /** Both branches of an `if` up to its end, from inside it. */
  lemma {:induction false} PassBoth(bs: seq<byte>, p: nat, i: Instr, d: nat)
    requires d >= 2 && i.IfElse? && WfI(i)
    requires Stands(bs, p, EncC(i.body) + ([0x05] + (EncC(i.other) + [0x0b])))
    ensures Passes(bs, p, d, p + |EncC(i.body)| + 1 + |EncC(i.other)| + 1, d - 1)
    decreases i, 2
  {
    hide Passes, SkipEnd, SkipElse, EncC, WfC, Stands;
    var c, e := i.body, i.other;
    var q := p + |EncC(c)|;
    StandsSplit(bs, p, EncC(c), [0x05] + (EncC(e) + [0x0b]));
    StandsSplit(bs, q, [0x05], EncC(e) + [0x0b]);
    PassCode(bs, p, c, d);
    PassElse(bs, q, d);
    PassBody(bs, q + 1, e, d);
    PassTrans(bs, p, d, q, d, q + 1, d);
    PassTrans(bs, p, d, q + 1, d, q + 1 + |EncC(e)| + 1, d - 1);
  }

  lemma {:induction false} PassInstr(bs: seq<byte>, p: nat, i: Instr, d: nat)
    requires d >= 1 && WfI(i) && Stands(bs, p, EncI(i))
    ensures Passes(bs, p, d, p + |EncI(i)|, d)
    decreases i, 3
  {
    hide Passes, SkipEnd, SkipElse, DecU, DecS, EncU, EncS;
    match i
    case Plain(op) =>
      FetchPlain(bs, p, op);
      PassOne(bs, p, d);
    case Br(n) =>
      FetchIndexed(bs, p, 0x0c, n);
      PassOne(bs, p, d);
    case BrIf(n) =>
      FetchIndexed(bs, p, 0x0d, n);
      PassOne(bs, p, d);
    case Call(n) =>
      FetchIndexed(bs, p, 0x10, n);
      PassOne(bs, p, d);
    case Return =>
      assert bs[p] == 0x0f;
      PassOne(bs, p, d);
    case Unreachable =>
      assert bs[p] == 0x00;
      PassOne(bs, p, d);
    case Block(bt, b) => PassNested(bs, p, 0x02, bt, b, d);
    case Loop(bt, b) => PassNested(bs, p, 0x03, bt, b, d);
    case If(bt, b) => PassNested(bs, p, 0x04, bt, b, d);
    case IfElse(bt, b, e) =>
      StandsSplit(bs, p, [0x04, bt], EncC(b) + ([0x05] + (EncC(e) + [0x0b])));
      PassOpen(bs, p, d, 0x04, bt);
      PassBoth(bs, p + 2, i, d + 1);
      PassTrans(bs, p, d, p + 2, d + 1, p + |EncI(i)|, d);
  }

  // ---- Where the scanners land ----

  /** From inside a body without an `else`, both scanners stop just behind the matching end. */
  lemma LandEnd(bs: seq<byte>, p: nat, c: Code)
    requires WfC(c) && Stands(bs, p, EncC(c) + [0x0b])
    ensures SkipEnd(bs, p, 1) == p + |EncC(c)| + 1
    ensures SkipElse(bs, p, 1) == (p + |EncC(c)| + 1, false)
  {
    hide EncC, DecU, DecS, Behind;
    PassBody(bs, p, c, 1);
  }

  /** From inside the first branch, one scanner stops behind the `else`, the other behind the end. */
  lemma LandElse(bs: seq<byte>, p: nat, c: Code, e: Code)
    requires WfC(c) && WfC(e) && Stands(bs, p, EncC(c) + ([0x05] + (EncC(e) + [0x0b])))
    ensures SkipElse(bs, p, 1) == (p + |EncC(c)| + 1, true)
    ensures SkipEnd(bs, p, 1) == p + |EncC(c)| + 1 + |EncC(e)| + 1
    ensures SkipEnd(bs, p + |EncC(c)| + 1, 1) == p + |EncC(c)| + 1 + |EncC(e)| + 1
  {
    hide EncC, DecU, DecS, WfC;
    var q := p + |EncC(c)|;
    StandsSplit(bs, p, EncC(c), [0x05] + (EncC(e) + [0x0b]));
    StandsSplit(bs, q, [0x05], EncC(e) + [0x0b]);
    PassCode(bs, p, c, 1);
    assert bs[q] == 0x05;
    LandEnd(bs, q + 1, e);
  }
}
