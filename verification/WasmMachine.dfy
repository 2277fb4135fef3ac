/**
 Two meanings of a WebAssembly module: the flat interpreter, which runs over bytes with a program
 counter and a stack of block records, and the structured big-step semantics. Both count fuel; the
 flat machine returns what it did not use.
 */
module WasmMachine {
  import opened Leb128
  import opened WasmCode

  const STACK := 256
  const LOCALS := 16
  const DEPTH := 32
  const CALLS := 16

  type Stack = s: seq<int> | |s| == STACK witness seq(STACK, _ => 0)
  type Locals = s: seq<int> | |s| == LOCALS witness seq(LOCALS, _ => 0)
  type Sp = n: int | 0 <= n <= STACK

  /** The operand stack, which keeps stale values above `sp`, and the frame's locals. */
  datatype Mem = Mem(stack: Stack, sp: Sp, locals: Locals, count: nat)

  // ---- Plain instructions ----

  function Truncate(a: int, b: int): int
    requires b != 0
  {
    if a < 0 then (if b < 0 then (-a) / (-b) else -((-a) / b)) else if b < 0 then -(a / (-b)) else a / b
  }

  function And(a: nat, b: nat): nat {
    if a == 0 || b == 0 then 0
    else (if a % 2 == 1 && b % 2 == 1 then 1 else 0) + 2 * And(a / 2, b / 2)
  }

  datatype Option<T> = None | Some(value: T)

  /** Division by zero yields 0; the one quotient that does not fit a word has no result. */
  function Alu(op: BinOp, a: int, b: int): Option<int> {
    match op
    case Eq => Some(if a == b then 1 else 0)
    case Ne => Some(if a != b then 1 else 0)
    case LtS => Some(if a < b then 1 else 0)
    case GtS => Some(if a > b then 1 else 0)
    case LeS => Some(if a <= b then 1 else 0)
    case GeS => Some(if a >= b then 1 else 0)
    case Add => Some(ToSigned(a + b))
    case Sub => Some(ToSigned(a - b))
    case Mul => Some(ToSigned(a * b))
    case DivS => if b == 0 then Some(0) else if a == -IMM && b == -1 then None else Some(Truncate(a, b))
    case RemS => if b == 0 then Some(0) else if a == -IMM && b == -1 then None else Some(a - b * Truncate(a, b))
    case AndB => Some(ToSigned(And(a % WORD, b % WORD)))
    case OrB => Some(ToSigned(Or(a % WORD, b % WORD)))
  }

  function Push(m: Mem, v: int): Mem {
    if m.sp < STACK then m.(stack := m.stack[m.sp := v], sp := m.sp + 1) else m
  }

  function Top(m: Mem): int {
    if m.sp > 0 then m.stack[m.sp - 1] else 0
  }

  function Apply(op: Op, m: Mem): Option<Mem> {
    match op
    case Nop => Some(m)
    case Drop => Some(if m.sp > 0 then m.(sp := m.sp - 1) else m)
    case Eqz => Some(if m.sp > 0 then m.(stack := m.stack[m.sp - 1 := if m.stack[m.sp - 1] == 0 then 1 else 0]) else m)
    case Bin(b) =>
      if m.sp < 2 then Some(m)
      else (
        match Alu(b, m.stack[m.sp - 2], m.stack[m.sp - 1])
        case None => None
        case Some(v) => Some(m.(stack := m.stack[m.sp - 2 := v], sp := m.sp - 1)))
    case Const(v) => Some(Push(m, v))
    case Get(i) => Some(if i < m.count && i < LOCALS then Push(m, m.locals[i]) else m)
    case Set(i) =>
      Some(if m.sp > 0 && i < m.count && i < LOCALS
           then m.(locals := m.locals[i := m.stack[m.sp - 1]], sp := m.sp - 1) else m)
    case Tee(i) =>
      Some(if m.sp > 0 && i < m.count && i < LOCALS then m.(locals := m.locals[i := m.stack[m.sp - 1]]) else m)
  }

  // ---- Modules ----

  datatype Sig = Sig(params: nat, result: bool)

  datatype Func<C> = Func(sig: Sig, count: nat, code: C)

  /** Functions are numbered with the imports first; the host is any function. */
  datatype Module<C> = Module(imports: seq<Sig>, host: (nat, seq<int>) -> int, funcs: seq<Func<C>>)

  function SigOf<C>(md: Module<C>, f: nat): Option<Sig> {
    if f < |md.imports| then Some(md.imports[f])
    else if f - |md.imports| < |md.funcs| then Some(md.funcs[f - |md.imports|].sig)
    else None
  }

  function Entry<C>(fn: Func<C>, args: seq<int>, stack: Stack, sp: Sp): Mem {
    Mem(stack, sp, seq(LOCALS, i requires 0 <= i => if i < |args| then args[i] else 0), fn.count)
  }

  /** What a call finds before it starts: the signature and the arguments, unless it cannot proceed. */
  function Args<C>(md: Module<C>, f: nat, m: Mem): (r: Option<(Sig, seq<int>)>)
    ensures r.Some? ==> r.value.0.params <= m.sp
  {
    match SigOf(md, f)
    case None => None
    case Some(sig) => if m.sp < sig.params then None else Some((sig, m.stack[m.sp - sig.params..m.sp]))
  }

  /** The caller after the call: the arguments are gone and the result, if any, is pushed. */
  function Back(m: Mem, sig: Sig, stack: Stack, v: int): Mem
    requires sig.params <= m.sp
  {
    var m' := m.(stack := stack, sp := m.sp - sig.params);
    if sig.result then Push(m', v) else m'
  }

  // ---- The flat machine ----

  datatype Blk = Blk(loop: bool, cont: nat, start: nat, height: Sp)

  datatype Frame = Frame(pc: nat, m: Mem, blocks: seq<Blk>)

  datatype Res = Fuel | Fault | Ret(stack: Stack, v: int, left: nat)

  datatype Move = Go(f: Frame) | Stop(v: int) | Trap | Enter(fi: nat)

  /** A branch pops to its target's height and carries no value. */
  function Target(blocks: seq<Blk>, d: nat, m: Mem): Frame
    requires d < |blocks|
  {
    var i := |blocks| - 1 - d;
    var b := blocks[i];
    Frame(if b.loop then b.start else b.cont, m.(sp := b.height), blocks[..if b.loop then i + 1 else i])
  }

  function Branch(f: Frame, d: nat, m: Mem): Move {
    if d >= |f.blocks| then Stop(Top(m)) else Go(Target(f.blocks, d, m))
  }

  function Open(f: Frame, m: Mem, b: Blk, pc: nat): Move {
    if |f.blocks| >= DEPTH then Stop(0) else Go(Frame(pc, m, f.blocks + [b]))
  }

  /** One turn of the dispatch loop at an instruction `t` that ends before `q`. */
  function Turn(bs: seq<byte>, f: Frame, t: Tok, q: nat): Move {
    var m := f.m;
    match t
    case TPlain(op) => (match Apply(op, m) case None => Trap case Some(m') => Go(Frame(q, m', f.blocks)))
    case TUnreachable => Stop(0)
    case TBlock => Open(f, m, Blk(false, SkipEnd(bs, q, 1), 0, m.sp), q)
    case TLoop => Open(f, m, Blk(true, SkipEnd(bs, q, 1), q, m.sp), q)
    case TIf =>
      if m.sp == 0 then Stop(0)
      else
        var m' := m.(sp := m.sp - 1);
        if m.stack[m.sp - 1] != 0 then Open(f, m', Blk(false, SkipEnd(bs, q, 1), 0, m'.sp), q)
        else
          var (r, found) := SkipElse(bs, q, 1);
          if found then Open(f, m', Blk(false, SkipEnd(bs, r, 1), 0, m'.sp), r)
          else Go(Frame(r, m', f.blocks))
    case TElse =>
      if |f.blocks| > 0 then Go(Frame(f.blocks[|f.blocks| - 1].cont, m, f.blocks[..|f.blocks| - 1]))
      else Go(Frame(q, m, f.blocks))
    case TEnd =>
      if |f.blocks| > 0 then Go(Frame(q, m, f.blocks[..|f.blocks| - 1])) else Stop(Top(m))
    case TBr(d) => Branch(f, d, m)
    case TBrIf(d) =>
      if m.sp == 0 then Stop(0)
      else
        var m' := m.(sp := m.sp - 1);
        if m.stack[m.sp - 1] != 0 then Branch(f, d, m') else Go(Frame(q, m', f.blocks))
    case TReturn => Stop(Top(m))
    case TCall(fi) => Enter(fi)
    case TBad => Stop(0)
  }

  function Exec(md: Module<seq<byte>>, fp: nat, bs: seq<byte>, f: Frame, fuel: nat): (r: Res)
    ensures r.Ret? ==> r.left <= fuel
    decreases fuel, 0
  {
    if fuel == 0 then Fuel
    else if f.pc >= |bs| then Ret(f.m.stack, Top(f.m), fuel - 1)
    else
      var (t, q) := Fetch(bs, f.pc);
      match Turn(bs, f, t, q)
      case Go(f') => Exec(md, fp, bs, f', fuel - 1)
      case Stop(v) => Ret(f.m.stack, v, fuel - 1)
      case Trap => Fault
      case Enter(fi) =>
        match Args(md, fi, f.m)
        case None => Ret(f.m.stack, 0, fuel - 1)
        case Some((sig, args)) =>
          match CallFn(md, fp, fi, args, f.m.stack, f.m.sp - sig.params, fuel - 1)
          case Fuel => Fuel
          case Fault => Fault
          case Ret(stack, v, left) => Exec(md, fp, bs, Frame(q, Back(f.m, sig, stack, v), f.blocks), left)
  }

  function CallFn(md: Module<seq<byte>>, fp: nat, fi: nat, args: seq<int>, stack: Stack, sp: Sp, fuel: nat): (r: Res)
    ensures r.Ret? ==> r.left <= fuel
    decreases fuel, 1
  {
    if fi < |md.imports| then Ret(stack, md.host(fi, args), fuel)
    else if fi - |md.imports| >= |md.funcs| || fp >= CALLS then Ret(stack, 0, fuel)
    else
      var fn := md.funcs[fi - |md.imports|];
      Exec(md, fp + 1, fn.code, Frame(0, Entry(fn, args, stack, sp), []), fuel)
  }

  // ---- The structured semantics ----

  datatype Outcome = Next(m: Mem) | Jump(d: nat, m: Mem) | Exit(stack: Stack, v: int) | Fails | OutOfFuel

  /** Leaving a block: a branch to it continues behind it with the stack cut back. */
  function Leave(o: Outcome, h: Sp): Outcome {
    if o.Jump? then (if o.d == 0 then Next(o.m.(sp := h)) else Jump(o.d - 1, o.m)) else o
  }

  /** A branch that names more blocks than there are returns. */
  function Goto(n: nat, d: nat, m: Mem): Outcome {
    if d >= n then Exit(m.stack, Top(m)) else Jump(d, m)
  }

  function EvalC(md: Module<Code>, fp: nat, n: nat, c: Code, m: Mem, k: nat): Outcome
    decreases k, c, 0
  {
    if c.Done? then Next(m)
    else
      var o := EvalI(md, fp, n, c.head, m, k);
      if o.Next? then EvalC(md, fp, n, c.tail, o.m, k) else o
  }

  function EvalI(md: Module<Code>, fp: nat, n: nat, i: Instr, m: Mem, k: nat): Outcome
    decreases k, i, 0
  {
    match i
    case Plain(op) => (match Apply(op, m) case None => Fails case Some(m') => Next(m'))
    case Br(d) => Goto(n, d, m)
    case BrIf(d) =>
      if m.sp == 0 then Exit(m.stack, 0)
      else if m.stack[m.sp - 1] != 0 then Goto(n, d, m.(sp := m.sp - 1))
      else Next(m.(sp := m.sp - 1))
    case Return => Exit(m.stack, Top(m))
    case Unreachable => Exit(m.stack, 0)
    case Call(f) => (
      match Args(md, f, m)
      case None => Exit(m.stack, 0)
      case Some((sig, args)) =>
        if k == 0 then OutOfFuel
        else
          var o := EvalFn(md, fp, f, args, m.stack, m.sp - sig.params, k - 1);
          if o.Exit? then Next(Back(m, sig, o.stack, o.v)) else o)
    case Block(_, b) =>
      if n >= DEPTH then Exit(m.stack, 0) else Leave(EvalC(md, fp, n + 1, b, m, k), m.sp)
    case Loop(_, b) =>
      if n >= DEPTH then Exit(m.stack, 0) else EvalLoop(md, fp, n, b, m, m.sp, k)
    case If(_, b) =>
      if m.sp == 0 then Exit(m.stack, 0)
      else
        var m' := m.(sp := m.sp - 1);
        if m.stack[m.sp - 1] == 0 then Next(m')
        else if n >= DEPTH then Exit(m.stack, 0) else Leave(EvalC(md, fp, n + 1, b, m', k), m'.sp)
    case IfElse(_, b, e) =>
      if m.sp == 0 || n >= DEPTH then Exit(m.stack, 0)
      else
        var m' := m.(sp := m.sp - 1);
        Leave(EvalC(md, fp, n + 1, if m.stack[m.sp - 1] != 0 then b else e, m', k), m'.sp)
  }

  /** The iterations of a loop entered with the stack at height `h`. */
  function EvalLoop(md: Module<Code>, fp: nat, n: nat, b: Code, m: Mem, h: Sp, k: nat): Outcome
    decreases k, b, 1
  {
    var o := EvalC(md, fp, n + 1, b, m, k);
    if o.Jump? && o.d == 0 then
      if k == 0 then OutOfFuel else EvalLoop(md, fp, n, b, o.m.(sp := h), h, k - 1)
    else Leave(o, h)
  }

  /** A call: never `Next` and never `Jump`, since a body is run outside all blocks. */
  function EvalFn(md: Module<Code>, fp: nat, fi: nat, args: seq<int>, stack: Stack, sp: Sp, k: nat): Outcome
    decreases k
  {
    if fi < |md.imports| then Exit(stack, md.host(fi, args))
    else if fi - |md.imports| >= |md.funcs| || fp >= CALLS then Exit(stack, 0)
    else
      var fn := md.funcs[fi - |md.imports|];
      var o := EvalC(md, fp + 1, 0, fn.code, Entry(fn, args, stack, sp), k);
      if o.Next? then Exit(o.m.stack, Top(o.m)) else o
  }
}
