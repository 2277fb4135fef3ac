/**
 LEB128 integers as section 5.2.2 of the WebAssembly Core Specification 1.0 defines them: the
 encoders of the module generator and the decoders of the interpreter, with their round trips.
 */
module Leb128 {

  type byte = x: int | 0 <= x < 256

  const WORD := 0x1_0000_0000

  // ---- Bitwise or on non-negative integers ----

  function Or(a: nat, b: nat): nat
    decreases a + b
  {
    if a == 0 && b == 0 then 0
    else (if a % 2 == 1 || b % 2 == 1 then 1 else 0) + 2 * Or(a / 2, b / 2)
  }

  function Pow2(n: nat): (p: nat)
    ensures p > 0
  {
    if n == 0 then 1 else 2 * Pow2(n - 1)
  }

  /** Or of numbers with no bit in common is their sum. */
  lemma {:induction false} OrDisjoint(a: nat, x: nat, n: nat)
    requires a < Pow2(n)
    ensures Or(a, x * Pow2(n)) == a + x * Pow2(n)
    decreases n
  {
    if n == 0 {
      OrZero(x);
    } else {
      var b, h := x * Pow2(n), x * Pow2(n - 1);
      assert b == 2 * h by { assert x * (2 * Pow2(n - 1)) == 2 * (x * Pow2(n - 1)); }
      assert b % 2 == 0 && b / 2 == h;
      OrDisjoint(a / 2, x, n - 1);
    }
  }

  lemma {:induction false} OrZero(b: nat)
    ensures Or(0, b) == b
  {
    if b > 0 {
      OrZero(b / 2);
    }
  }

  /** The weight of the `k`-th group of seven bits. */
  function Weight(k: nat): (w: nat)
    requires k <= 5
    ensures w > 0
  {
    if k == 0 then 1 else if k == 1 then 128 else if k == 2 then 16384 else if k == 3 then 2097152
    else if k == 4 then 268435456 else 34359738368
  }

  lemma Seven(n: nat)
    ensures Pow2(n + 7) == 128 * Pow2(n)
  {
    assert Pow2(n + 2) == 4 * Pow2(n);
    assert Pow2(n + 4) == 4 * Pow2(n + 2);
    assert Pow2(n + 6) == 4 * Pow2(n + 4);
  }

  lemma {:induction false} WeightPow(k: nat)
    requires k <= 5
    ensures Weight(k) == Pow2(7 * k)
    decreases k
  {
    if k > 0 {
      WeightPow(k - 1);
      Seven(7 * (k - 1));
    }
  }

  lemma OrWeight(a: nat, x: nat, k: nat)
    requires k <= 5 && a < Weight(k)
    ensures Or(a, x * Weight(k)) == a + x * Weight(k)
  {
    WeightPow(k);
    OrDisjoint(a, x, 7 * k);
  }

  // ---- Encoders ----

  function EncU(val: nat): (out: seq<byte>)
    ensures |out| > 0
  {
    if val / 128 == 0 then [val % 128] else [val % 128 + 128] + EncU(val / 128)
  }

  /** The last byte of a signed number: what is left is only its sign, which bit 6 already shows. */
  predicate Last(val: int) {
    (val / 128 == 0 && val % 128 < 64) || (val / 128 == -1 && val % 128 >= 64)
  }

  function EncS(val: int): (out: seq<byte>)
    ensures |out| > 0
    decreases if val < 0 then -val else val
  {
    if Last(val) then [val % 128] else [val % 128 + 128] + EncS(val / 128)
  }

  /** The number whose base-128 digits, lowest first, are the low seven bits of the bytes. */
  function Digits(bs: seq<byte>): nat {
    if bs == [] then 0 else bs[0] % 128 + 128 * Digits(bs[1..])
  }

  function Power128(n: nat): nat {
    if n == 0 then 1 else 128 * Power128(n - 1)
  }

  /** Every byte but the last carries the continuation bit. */
  ghost predicate Continued(bs: seq<byte>) {
    |bs| > 0 && bs[|bs| - 1] < 128 && forall i :: 0 <= i < |bs| - 1 ==> bs[i] >= 128
  }

  /** The unsigned encoding holds the number in base 128, in the fewest bytes. */
  lemma {:induction false} EncodesU(val: nat)
    ensures Digits(EncU(val)) == val && Continued(EncU(val))
    ensures |EncU(val)| > 1 ==> EncU(val)[|EncU(val)| - 1] != 0
    decreases val
  {
    if val / 128 != 0 {
      EncodesU(val / 128);
      var r := EncU(val / 128);
      assert EncU(val)[1..] == r;
      assert |r| == 1 ==> r[0] == val / 128;
    }
  }

  /** The signed encoding holds it in two's complement: bit 6 of the last byte is the sign. */
  lemma {:induction false} EncodesS(val: int)
    ensures Continued(EncS(val))
    ensures var e := EncS(val); Digits(e) - (if e[|e| - 1] >= 64 then Power128(|e|) else 0) == val
    decreases if val < 0 then -val else val
  {
    EncSStep(val);
    if !Last(val) {
      EncodesS(val / 128);
      assert EncS(val)[1..] == EncS(val / 128);
    } else {
      assert Digits([val % 128]) == val % 128 && Power128(1) == 128;
    }
  }

  lemma EncSStep(val: int)
    ensures Last(val) ==> EncS(val) == [val % 128]
    ensures !Last(val) ==> EncS(val) == [val % 128 + 128] + EncS(val / 128)
    ensures !Last(val) ==> (if val < 0 then 0 - val else val) > (if val / 128 < 0 then 0 - (val / 128) else val / 128)
  {
  }

  method Leb128U(val0: nat) returns (out: seq<byte>)
    ensures out == EncU(val0)
  {
    var val := val0;
    out := [];
    while true
      invariant val >= 0 && EncU(val0) == out + EncU(val)
      decreases val
    {
      var b := val % 128;
      val := val / 128;
      if val != 0 {
        b := b + 128;
      }
      out := out + [b];
      if val == 0 {
        break;
      }
    }
  }

  method Leb128S(val0: int) returns (out: seq<byte>)
    ensures out == EncS(val0)
  {
    hide EncS, Last;
    var val := val0;
    out := [];
    while true
      invariant EncS(val0) == out + EncS(val)
      decreases if val < 0 then -val else val
    {
      EncSStep(val);
      var b := val % 128;
      var last := Last(val);
      val := val / 128;
      if last {
        out := out + [b];
        break;
      }
      out := out + [b + 128];
    }
  }

  // ---- Decoders ----

  /** Bytes behind the end of the code read as 0. */
  function ByteAt(bs: seq<byte>, pc: nat): byte {
    if pc < |bs| then bs[pc] else 0
  }

  /** The seven data bits of a byte shifted to their place in a 32-bit word. */
  function Group(b: byte, k: nat): (g: nat)
    requires k <= 5
  {
    (b % 128) * Weight(k) % WORD
  }

  function DecU(bs: seq<byte>, pc: nat, k: nat, acc: nat): (r: (nat, nat))
    requires k < 5
    ensures r.1 > pc
    decreases 5 - k
  {
    var b := ByteAt(bs, pc);
    var acc' := Or(acc, Group(b, k));
    if b < 128 || k == 4 then (acc', pc + 1) else DecU(bs, pc + 1, k + 1, acc')
  }

  function ToSigned(x: int): (r: int)
    ensures -0x8000_0000 <= r < 0x8000_0000
  {
    var u := x % WORD;
    if u < 0x8000_0000 then u else u - WORD
  }

  /** The signed decoder does not bound its length; groups past the fifth fall off the word. */
  function DecS(bs: seq<byte>, pc: nat, k: nat, acc: nat): (r: (int, nat))
    requires pc <= |bs|
    ensures r.1 > pc
    decreases |bs| - pc
  {
    var b := ByteAt(bs, pc);
    var acc' := if k < 5 then Or(acc, Group(b, k)) else acc;
    if b < 128 || pc == |bs| then
      (ToSigned(if k < 4 && b % 128 >= 64 then Or(acc', WORD - Weight(k + 1)) else acc'), pc + 1)
    else DecS(bs, pc + 1, k + 1, acc')
  }

  method ReadU32(bs: seq<byte>, pc0: nat) returns (result: nat, pc: nat)
    ensures (result, pc) == DecU(bs, pc0, 0, 0)
  {
    result, pc := 0, pc0;
    var k := 0;
    while true
      invariant k < 5 && DecU(bs, pc0, 0, 0) == DecU(bs, pc, k, result)
      decreases 5 - k
    {
      var b := ByteAt(bs, pc);
      pc := pc + 1;
      result := Or(result, Group(b, k));
      if b < 128 {
        break;
      }
      k := k + 1;
      if k >= 5 {
        break;
      }
    }
  }

  method ReadS32(bs: seq<byte>, pc0: nat) returns (result: int, pc: nat)
    requires pc0 <= |bs|
    ensures (result, pc) == DecS(bs, pc0, 0, 0)
  {
    pc := pc0;
    var acc, k := 0, 0;
    var b;
    while true
      invariant acc >= 0 && pc <= |bs| && DecS(bs, pc0, 0, 0) == DecS(bs, pc, k, acc)
      decreases |bs| - pc
    {
      b := ByteAt(bs, pc);
      acc := if k < 5 then Or(acc, Group(b, k)) else acc;
      k := k + 1;
      if b < 128 || pc == |bs| {
        pc := pc + 1;
        break;
      }
      pc := pc + 1;
    }
    if k < 5 && b % 128 >= 64 {
      acc := Or(acc, WORD - Weight(k));
    }
    result := ToSigned(acc);
  }

  // ---- Round trips ----

  /** The bytes `e` stand in `bs` from position `p` on. */
  ghost predicate Stands(bs: seq<byte>, p: nat, e: seq<byte>) {
    p + |e| <= |bs| && bs[p..p + |e|] == e
  }

  lemma StandsSplit(bs: seq<byte>, p: nat, a: seq<byte>, b: seq<byte>)
    requires Stands(bs, p, a + b)
    ensures Stands(bs, p, a) && Stands(bs, p + |a|, b)
  {
    assert bs[p..p + |a|] == (a + b)[..|a|] == a;
    assert bs[p + |a|..p + |a| + |b|] == (a + b)[|a|..] == b;
  }

  lemma WeightNext(k: nat)
    requires k < 5
    ensures Weight(k + 1) == 128 * Weight(k)
  {
  }

  /** Taking the low seven bits off a number of weight `Weight(k)`. */
  lemma WeightSplit(val: int, k: nat)
    requires k < 5
    ensures val * Weight(k) == (val / 128) * Weight(k + 1) + (val % 128) * Weight(k)
    ensures (val % 128) * Weight(k) + Weight(k) <= Weight(k + 1)
  {
    WeightNext(k);
    hide Weight;
    var w, q, r := Weight(k), val / 128, val % 128;
    assert val == q * 128 + r;
    assert (q * 128 + r) * w == q * (128 * w) + r * w;
    assert (r + 1) * w <= 128 * w;
  }

  lemma SignedRange(val: int, k: nat)
    requires k < 5 && -0x8000_0000 <= val * Weight(k) < 0x8000_0000
    ensures !Last(val) ==> k < 4
    ensures k < 4 ==> -0x8000_0000 <= (val / 128) * Weight(k + 1) < 0x8000_0000
    ensures k == 4 ==> -8 <= val < 8
  {
  }

  lemma GroupSum(x: int, k: nat, acc: nat, b: byte)
    requires k < 5 && acc < Weight(k) && 0 <= x * Weight(k) < WORD && b % 128 == x
    ensures Or(acc, Group(b, k)) == acc + x * Weight(k)
  {
    OrWeight(acc, x, k);
  }

  lemma {:induction false} DecodeEncodeU(val: nat, bs: seq<byte>, p: nat, k: nat, acc: nat)
    requires k < 5 && val * Weight(k) < WORD && acc < Weight(k) && Stands(bs, p, EncU(val))
    ensures DecU(bs, p, k, acc) == (acc + val * Weight(k), p + |EncU(val)|)
    decreases val
  {
    hide Or, Group;
    var b := EncU(val)[0];
    assert ByteAt(bs, p) == b;
    WeightSplit(val, k);
    UnsignedRange(val, k);
    hide Weight;
    GroupSum(val % 128, k, acc, b);
    if val / 128 != 0 {
      StandsSplit(bs, p, [val % 128 + 128], EncU(val / 128));
      DecodeEncodeU(val / 128, bs, p + 1, k + 1, acc + (val % 128) * Weight(k));
    }
  }

  lemma UnsignedRange(val: nat, k: nat)
    requires k < 5 && val * Weight(k) < WORD
    ensures val / 128 != 0 ==> k < 4
    ensures 0 <= (val % 128) * Weight(k) < WORD && 0 <= (val / 128) * Weight(k + 1) < WORD
  {
  }

  /** For every 32-bit signed integer, decoding undoes encoding and stops just behind it. */
  lemma {:induction false} DecodeEncodeS(val: int, bs: seq<byte>, p: nat, k: nat, acc: nat)
    requires k < 5 && -0x8000_0000 <= val * Weight(k) < 0x8000_0000 && acc < Weight(k) && Stands(bs, p, EncS(val))
    ensures DecS(bs, p, k, acc) == (ToSigned(acc + val * Weight(k)), p + |EncS(val)|)
    decreases if val < 0 then -val else val
  {
    hide Or, Group, ToSigned, Last, EncS, Weight;
    EncSStep(val);
    var b := EncS(val)[0];
    assert ByteAt(bs, p) == b;
    WeightSplit(val, k);
    SignedRange(val, k);
    if Last(val) {
      LastGroup(val, k, acc);
    } else {
      LowRange(val, k);
      GroupSum(val % 128, k, acc, b);
      StandsSplit(bs, p, [val % 128 + 128], EncS(val / 128));
      DecodeEncodeS(val / 128, bs, p + 1, k + 1, acc + (val % 128) * Weight(k));
    }
  }

  lemma LowRange(val: int, k: nat)
    requires k < 4
    ensures 0 <= (val % 128) * Weight(k) < WORD
  {
  }

  /** The last group with its sign extension stands for the number itself, modulo the word. */
  lemma LastGroup(val: int, k: nat, acc: nat)
    requires k < 5 && -0x8000_0000 <= val * Weight(k) < 0x8000_0000 && acc < Weight(k) && Last(val)
    ensures ToSigned(if k < 4 && val % 128 >= 64 then Or(Or(acc, Group(val % 128, k)), WORD - Weight(k + 1))
                     else Or(acc, Group(val % 128, k))) == ToSigned(acc + val * Weight(k))
  {
    SignedRange(val, k);
    if k == 4 {
      LastFifth(val, acc);
    } else {
      LowRange(val, k);
      GroupSum(val % 128, k, acc, val % 128);
      if val % 128 >= 64 {
        WeightSplit(val, k);
        LastSign(acc + (val % 128) * Weight(k), k);
        hide Weight, Or, Group;
        assert (val / 128) * Weight(k + 1) == 0 - Weight(k + 1) by { assert val / 128 == -1; }
        SameWord(acc + val * Weight(k), acc + val * Weight(k) + WORD);
      } else {
        assert val % 128 == val;
      }
    }
  }

  lemma SameWord(a: int, b: int)
    requires b == a + WORD
    ensures ToSigned(a) == ToSigned(b)
  {
  }

  lemma LastSign(a: nat, k: nat)
    requires k < 4 && a < Weight(k + 1)
    ensures Or(a, WORD - Weight(k + 1)) == a + WORD - Weight(k + 1)
  {
    var x := WORD / Weight(k + 1) - 1;
    assert x * Weight(k + 1) == WORD - Weight(k + 1);
    OrWeight(a, x, k + 1);
  }

  lemma FifthGroup(val: int, x: int)
    requires -8 <= val < 8 && x == if val < 0 then val + 16 else val
    ensures Group(val % 128, 4) == x * Weight(4)
  {
    var r := val % 128;
    assert r == val || r == val + 128;
    assert r * Weight(4) == x * Weight(4) || r * Weight(4) == x * Weight(4) + 7 * WORD;
  }

  /** In the fifth group only four bits fit; the word keeps the sign by itself. */
  lemma LastFifth(val: int, acc: nat)
    requires -8 <= val < 8 && acc < Weight(4)
    ensures ToSigned(Or(acc, Group(val % 128, 4))) == ToSigned(acc + val * Weight(4))
  {
    hide Or, Group, ToSigned;
    var x := if val < 0 then val + 16 else val;
    FifthGroup(val, x);
    OrWeight(acc, x, 4);
    if val < 0 {
      SameWord(acc + val * 268435456, acc + x * 268435456);
    }
  }

  // ---- The two round trips as the interpreter uses them ----

  /** For every value below 2^32, and whatever follows it, the reader returns the value and stops just behind it. */
  lemma RoundTripU(val: nat, bs: seq<byte>, p: nat)
    requires val < WORD && Stands(bs, p, EncU(val))
    ensures DecU(bs, p, 0, 0) == (val, p + |EncU(val)|) && |EncU(val)| <= 5
  {
    hide EncU, DecU, Or, Group;
    DecodeEncodeU(val, bs, p, 0, 0);
    LengthU(val, 0);
  }

  lemma RoundTripS(val: int, bs: seq<byte>, p: nat)
    requires -0x8000_0000 <= val < 0x8000_0000 && Stands(bs, p, EncS(val))
    ensures DecS(bs, p, 0, 0) == (val, p + |EncS(val)|) && |EncS(val)| <= 5
  {
    hide EncS, DecS, Or, Group;
    DecodeEncodeS(val, bs, p, 0, 0);
    LengthS(val, 0);
  }

  lemma {:induction false} LengthU(val: nat, k: nat)
    requires k < 5 && val * Weight(k) < WORD
    ensures |EncU(val)| <= 5 - k
    decreases val
  {
    UnsignedRange(val, k);
    if val / 128 != 0 {
      LengthU(val / 128, k + 1);
    }
  }

  lemma {:induction false} LengthS(val: int, k: nat)
    requires k < 5 && -0x8000_0000 <= val * Weight(k) < 0x8000_0000
    ensures |EncS(val)| <= 5 - k
    decreases if val < 0 then -val else val
  {
    SignedRange(val, k);
    if !Last(val) {
      LengthS(val / 128, k + 1);
    }
  }
}
