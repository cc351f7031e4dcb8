/** The flag helpers of recomp_rt.h and the C emitted for ADDS, ADCS and CMP. */
module Cpu {

  type word = x: int | 0 <= x < 0x1_0000_0000

  const WORD: nat := 0x1_0000_0000

  function Wrap(x: int): word {
    x % WORD
  }

  /** Bit 31. */
  predicate Top(x: word) {
    x >= 0x8000_0000
  }

  /** Two's-complement value. */
  function Signed(x: word): int {
    if Top(x) then x - WORD else x
  }

  /** Only bit 31 of the exclusive ors matters to the overflow flags. */
  lemma OverflowBits(a: bv32, b: bv32, r: bv32)
    ensures ((a ^ r) & (b ^ r)) >> 31 == 1 <==> (a >> 31 != r >> 31 && b >> 31 != r >> 31)
    ensures ((a ^ b) & (a ^ r)) >> 31 == 1 <==> (a >> 31 != b >> 31 && a >> 31 != r >> 31)
  {
  }

  /** The sign test on a word as a bit vector is the test on its value. */
  lemma TopIsBit31(x: bv32)
    ensures Top(x as int) <==> x >> 31 == 1
  {
  }

  /** The overflow formulas of the flag helpers, on registers as bit vectors, against the
      sign tests on the values they hold. */
  lemma OverflowIsSigns(a: bv32, b: bv32, r: bv32)
    ensures ((a ^ r) & (b ^ r)) >> 31 == 1 <==> Top(a as int) != Top(r as int) && Top(b as int) != Top(r as int)
    ensures ((a ^ b) & (a ^ r)) >> 31 == 1 <==> Top(a as int) != Top(b as int) && Top(a as int) != Top(r as int)
  {
    hide Top;
    OverflowBits(a, b, r);
    TopIsBit31(a);
    TopIsBit31(b);
    TopIsBit31(r);
    OneBit(a);
    OneBit(b);
    OneBit(r);
  }

  lemma OneBit(x: bv32)
    ensures x >> 31 == 0 || x >> 31 == 1
  {
  }

  datatype Flags = Flags(n: bool, z: bool, c: bool, v: bool)

  /** AddWithCarry (ARM DDI 0406C section A2.2.1). */
  function AddWithCarry(x: word, y: word, carry: bool): (r: (word, Flags)) {
    var c := if carry then 1 else 0;
    var res := Wrap(x + y + c);
    (res, Flags(Top(res), res == 0, x + y + c >= WORD, Signed(res) != Signed(x) + Signed(y) + c))
  }

  function Not(x: word): word {
    WORD - 1 - x
  }

  /** What a condition decides after comparing `a` with `b` (section A8.3). */
  predicate Relation(cc: nat, a: word, b: word)
    requires cc < 14
  {
    match cc
    case 0 => a == b
    case 1 => a != b
    case 2 => a >= b
    case 3 => a < b
    case 4 => Top(Wrap(a - b))
    case 5 => !Top(Wrap(a - b))
    case 6 => !(-0x8000_0000 <= Signed(a) - Signed(b) < 0x8000_0000)
    case 7 => -0x8000_0000 <= Signed(a) - Signed(b) < 0x8000_0000
    case 8 => a > b
    case 9 => a <= b
    case 10 => Signed(a) >= Signed(b)
    case 11 => Signed(a) < Signed(b)
    case 12 => Signed(a) > Signed(b)
    case _ => Signed(a) <= Signed(b)
  }

  /** Little-endian value of a multi-word number. */
  function Value(ws: seq<word>): nat {
    if ws == [] then 0 else ws[0] + WORD * Value(ws[1..])
  }

  function Radix(n: nat): nat {
    if n == 0 then 1 else WORD * Radix(n - 1)
  }

  /** The globals of cpu.c that arithmetic touches. */
  class Cpu {
    var n: bool
    var z: bool
    var c: bool
    var v: bool

    ghost function Nzcv(): Flags
      reads this
    {
      Flags(n, z, c, v)
    }

    /** `vita_flags_add`, with the sum the caller computed. */
    method FlagsAdd(a: word, b: word, res: word)
      requires res == Wrap(a + b)
      modifies this
      ensures Nzcv() == AddWithCarry(a, b, false).1
    {
      n, z := Top(res), res == 0;
      c := res < a;
      v := Top(a) != Top(res) && Top(b) != Top(res);
    }

    /** `vita_flags_adc`. */
    method FlagsAdc(a: word, b: word, carry: bool, res: word)
      requires res == Wrap(a + b + if carry then 1 else 0)
      modifies this
      ensures Nzcv() == AddWithCarry(a, b, carry).1
    {
      n, z := Top(res), res == 0;
      c := if carry then res <= a else res < a;
      v := Top(a) != Top(res) && Top(b) != Top(res);
    }

    /** `vita_flags_sub`: subtraction adds the complement and a carry. */
    method FlagsSub(a: word, b: word, res: word)
      requires res == Wrap(a - b)
      modifies this
      ensures Nzcv() == AddWithCarry(a, Not(b), true).1
    {
      n, z := Top(res), res == 0;
      c := a >= b;
      v := Top(a) != Top(b) && Top(a) != Top(res);
    }

    /** `vita_cond`, which looks at four bits of its argument. */
    method Cond(code: nat) returns (holds: bool)
      ensures code % 16 >= 14 ==> holds
      ensures forall a: word, b: word :: code % 16 < 14 && Nzcv() == AddWithCarry(a, Not(b), true).1 ==>
                (holds <==> Relation(code % 16, a, b))
    {
      match code % 16
      case 0 => holds := z;
      case 1 => holds := !z;
      case 2 => holds := c;
      case 3 => holds := !c;
      case 4 => holds := n;
      case 5 => holds := !n;
      case 6 => holds := v;
      case 7 => holds := !v;
      case 8 => holds := c && !z;
      case 9 => holds := !c || z;
      case 10 => holds := n == v;
      case 11 => holds := n != v;
      case 12 => holds := !z && n == v;
      case 13 => holds := z || n != v;
      case _ => holds := true;
    }

    /** The C emitted for ADDS: the operands are captured before the result is written. */
    method Adds(a: word, b: word) returns (rd: word)
      modifies this
      ensures (rd, Nzcv()) == AddWithCarry(a, b, false)
    {
      rd := Wrap(a + b);
      FlagsAdd(a, b, rd);
    }

    /** The C emitted for ADCS. */
    method Adcs(a: word, b: word) returns (rd: word)
      modifies this
      ensures (rd, Nzcv()) == AddWithCarry(a, b, old(c))
    {
      var carry := c;
      rd := Wrap(a + b + if carry then 1 else 0);
      FlagsAdc(a, b, carry, rd);
    }

    /** ADDS then ADCS over n-word operands: the exact sum, `flag_c` its final carry. */
    method AddWords(x: seq<word>, y: seq<word>) returns (sum: seq<word>)
      requires |x| == |y| > 0
      modifies this
      ensures |sum| == |x|
      ensures Value(sum) + (if c then Radix(|x|) else 0) == Value(x) + Value(y)
    {
      hide AddWithCarry, Value;
      ValueOfNone();
      var first := Adds(x[0], y[0]);
      sum := [first];
      assert x[..1] == [] + [x[0]] && y[..1] == [] + [y[0]] && sum == [] + sum;
      AddStep([], [], [], false, x[0], y[0]);
      for i := 1 to |x|
        invariant |sum| == i
        invariant Value(sum) + (if c then Radix(i) else 0) == Value(x[..i]) + Value(y[..i])
      {
        AddStep(x[..i], y[..i], sum, c, x[i], y[i]);
        assert x[..i + 1] == x[..i] + [x[i]] && y[..i + 1] == y[..i] + [y[i]];
        var next := Adcs(x[i], y[i]);
        sum := sum + [next];
      }
      assert x[..|x|] == x && y[..|y|] == y;
    }

    /** An emitted CMP and a condition on it: the condition decides its relation. */
    method Compare(a: word, b: word, cc: nat) returns (holds: bool)
      requires cc < 14
      modifies this
      ensures holds <==> Relation(cc, a, b)
    {
      FlagsSub(a, b, Wrap(a - b));
      holds := Cond(cc);
    }
  }

  lemma ValueOfNone()
    ensures Value([]) == 0 && Radix(0) == 1
  {
  }

  lemma {:induction false} ValueSnoc(ws: seq<word>, w: word)
    ensures Value(ws + [w]) == Value(ws) + Radix(|ws|) * w
  {
    if ws == [] {
      assert [w][1..] == [];
    } else {
      ValueSnoc(ws[1..], w);
      assert (ws + [w])[1..] == ws[1..] + [w];
      var r := Radix(|ws| - 1);
      assert WORD * (r * w) == WORD * r * w;
    }
  }

  /** One more word of a carry chain. */
  lemma AddStep(x: seq<word>, y: seq<word>, sum: seq<word>, carry: bool, a: word, b: word)
    requires |x| == |y| == |sum|
    requires Value(sum) + (if carry then Radix(|x|) else 0) == Value(x) + Value(y)
    ensures var (res, f) := AddWithCarry(a, b, carry);
            Value(sum + [res]) + (if f.c then Radix(|x| + 1) else 0) == Value(x + [a]) + Value(y + [b])
  {
    hide AddWithCarry, Value;
    SumParts(a, b, carry);
    var (res, f) := AddWithCarry(a, b, carry);
    ValueSnoc(x, a);
    ValueSnoc(y, b);
    ValueSnoc(sum, res);
    var cin, cout := if carry then 1 else 0, if f.c then 1 else 0;
    CarryMoves(Radix(|x|), Value(sum), Value(x) + Value(y), res, a + b, cin, cout);
    Distributes(Radix(|x|), a, b);
  }

  lemma SumParts(a: word, b: word, carry: bool)
    ensures var (res, f) := AddWithCarry(a, b, carry);
            res + WORD * (if f.c then 1 else 0) == a + b + if carry then 1 else 0
  {
  }

  lemma CarryMoves(r: nat, low: nat, want: nat, res: nat, ab: nat, cin: nat, cout: nat)
    requires low + r * cin == want && res + WORD * cout == ab + cin
    ensures low + r * res + (WORD * r) * cout == want + r * ab
  {
    assert r * (res + WORD * cout) == r * res + (WORD * r) * cout;
    assert r * (ab + cin) == r * ab + r * cin;
  }

  lemma Distributes(r: nat, a: nat, b: nat)
    ensures r * (a + b) == r * a + r * b
  {
  }
}
