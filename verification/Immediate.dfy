/** The constants Thumb instructions carry, as decode.c assembles them: which words the
    12-bit modified immediate reaches, and how MOVW and MOVT reach all of them. */
module Immediate {
  import opened Bits
  import opened Cpu

  /** `(v >> r) | (v << (32 - r))`. */
  function RotateRight(v: word, r: nat): (w: int)
    requires r <= 32
  {
    v / Pow2(r) + v % Pow2(r) * Pow2(32 - r)
  }

  /** `thumb_expand_imm`: a byte repeated in a pattern, or a byte with its top bit
      implied, rotated. */
  function ExpandImm(imm12: nat): int
    requires imm12 < 0x1000
  {
    var b := imm12 % 0x100;
    if imm12 < 0x100 then b
    else if imm12 < 0x200 then 0x1_0000 * b + b
    else if imm12 < 0x300 then 0x100_0000 * b + 0x100 * b
    else if imm12 < 0x400 then 0x100_0000 * b + 0x1_0000 * b + 0x100 * b + b
    else RotateRight(0x80 + imm12 % 0x80, imm12 / 0x80)
  }

  /** A byte somewhere in the word, zeros around it. */
  ghost predicate Window(w: int) {
    exists b: nat, sh: nat :: b < 0x100 && sh <= 24 && Placed(b, sh) == w
  }

  function Placed(b: nat, sh: nat): nat {
    b * Pow2(sh)
  }

  /** A byte in every halfword, low or high, or in every byte. */
  ghost predicate Pattern(w: int) {
    exists b: nat, form: nat :: b < 0x100 && form < 3 && Spread(b, form) == w
  }

  function Spread(b: nat, form: nat): nat {
    b * (if form == 0 then 0x10001 else if form == 1 then 0x100_0100 else 0x101_0101)
  }

  /** A rotation by eight or more places is a plain shift: nothing wraps. */
  lemma RotationIsShift(b: nat, r: nat)
    requires b < 0x100 && 8 <= r <= 32
    ensures RotateRight(b, r) == Placed(b, 32 - r)
  {
    Pow2Grows(8, r);
    Pow2Values();
    assert b / Pow2(r) == 0 && b % Pow2(r) == b by { SmallQuotient(b, Pow2(r)); }
  }

  lemma SmallQuotient(b: nat, d: nat)
    requires b < d
    ensures b / d == 0 && b % d == b
  {
  }

  lemma {:induction false} Pow2Grows(m: nat, n: nat)
    requires m <= n
    ensures Pow2(m) <= Pow2(n)
    decreases n
  {
    if m < n {
      Pow2Grows(m, n - 1);
    }
  }

  /** A byte's window can be narrowed until the byte's top bit is set or it stands at
      the bottom of the word. */
  lemma {:induction false} Normalise(b: nat, sh: nat) returns (b': nat, sh': nat)
    requires b < 0x100 && sh <= 24
    ensures b' < 0x100 && sh' <= 24 && Placed(b', sh') == Placed(b, sh) && (b' >= 0x80 || sh' == 0)
    decreases sh
  {
    if b >= 0x80 || sh == 0 {
      b', sh' := b, sh;
    } else {
      assert b * (2 * Pow2(sh - 1)) == 2 * b * Pow2(sh - 1);
      b', sh' := Normalise(2 * b, sh - 1);
    }
  }

  lemma WindowEncodes(b: nat, sh: nat) returns (imm12: nat)
    requires b < 0x100 && sh <= 24
    ensures imm12 < 0x1000 && ExpandImm(imm12) == Placed(b, sh)
  {
    hide Pow2, RotateRight;
    var b', sh' := Normalise(b, sh);
    if sh' == 0 {
      imm12 := b';
      assert Pow2(0) == 1 by { PowZero(); }
    } else {
      imm12 := 0x80 * (32 - sh') + (b' - 0x80);
      assert imm12 / 0x80 == 32 - sh' && 0x80 + imm12 % 0x80 == b';
      RotationIsShift(b', 32 - sh');
    }
  }

  lemma PowZero()
    ensures Pow2(0) == 1
  {
  }

  lemma ExpandedForm(imm12: nat)
    requires imm12 < 0x1000
    ensures Window(ExpandImm(imm12)) || Pattern(ExpandImm(imm12))
  {
    hide Pow2, RotateRight;
    var b := imm12 % 0x100;
    if imm12 < 0x100 {
      PowZero();
      assert Placed(b, 0) == ExpandImm(imm12);
    } else if imm12 >= 0x400 {
      RotationIsShift(0x80 + imm12 % 0x80, imm12 / 0x80);
    } else {
      PatternEncodes(b, imm12 / 0x100 - 1);
    }
  }

  /** What a modified immediate stands for (A6.3.2 of ARM DDI 0406C): from 0x400 on, bits 6 to
      0 under an implied top bit, rotated right by bits 11 to 7; below, its low byte in
      the bytes of the word that bits 9 and 8 choose. */
  lemma ExpandedValue(imm12: nat)
    requires imm12 < 0x1000
    ensures imm12 >= 0x400 ==> ExpandImm(imm12) * Pow2(imm12 / 0x80) == (0x80 + imm12 % 0x80) * 0x1_0000_0000
    ensures imm12 < 0x400 ==>
              var b, form := imm12 % 0x100, imm12 / 0x100;
              ExpandImm(imm12) == (if form != 2 then b else 0) + 0x1_0000 * (if form in {1, 3} then b else 0)
                                  + (0x100 + 0x100_0000) * (if form >= 2 then b else 0)
  {
    hide Pow2, RotateRight;
    if imm12 >= 0x400 {
      var v, r := 0x80 + imm12 % 0x80, imm12 / 0x80;
      RotationIsShift(v, r);
      Pow2Adds(32 - r, r);
      assert v * Pow2(32 - r) * Pow2(r) == v * (Pow2(32 - r) * Pow2(r));
      assert Pow2(32) == 0x1_0000_0000 by { Pow2Of32(); }
    }
  }

  lemma {:induction false} Pow2Adds(m: nat, n: nat)
    ensures Pow2(m) * Pow2(n) == Pow2(m + n)
    decreases m
  {
    if m > 0 {
      Pow2Adds(m - 1, n);
      assert Pow2(m) * Pow2(n) == 2 * (Pow2(m - 1) * Pow2(n));
    }
  }

  lemma Pow2Of32()
    ensures Pow2(32) == 0x1_0000_0000
  {
    Pow2Values();
    Pow2Adds(16, 16);
  }

  /** The modified immediate reaches exactly the windowed bytes and the patterns. */
  lemma ExpressibleIff(w: int)
    ensures (exists imm12: nat :: imm12 < 0x1000 && ExpandImm(imm12) == w) <==> Window(w) || Pattern(w)
  {
    hide ExpandImm, Placed, Spread;
    if imm12: nat :| imm12 < 0x1000 && ExpandImm(imm12) == w {
      ExpandedForm(imm12);
    }
    if Window(w) {
      var b: nat, sh: nat :| b < 0x100 && sh <= 24 && Placed(b, sh) == w;
      var imm12 := WindowEncodes(b, sh);
    }
    if Pattern(w) {
      var b: nat, form: nat :| b < 0x100 && form < 3 && Spread(b, form) == w;
      PatternEncodes(b, form);
    }
  }

  lemma PatternEncodes(b: nat, form: nat)
    requires b < 0x100 && form < 3
    ensures ExpandImm(0x100 * (form + 1) + b) == Spread(b, form)
  {
  }

  // ----- MOVW and MOVT

  /** The 16-bit literal of MOVW and MOVT, in four pieces over the two halfwords. */
  function Literal(h1: nat, h2: nat): (r: nat)
    ensures r < 0x10000
  {
    0x1000 * (h1 % 0x10) + 0x800 * (h1 / 0x400 % 2) + 0x100 * (h2 / 0x1000 % 8) + h2 % 0x100
  }

  /** Where ARM DDI 0406C section A8.8.102 puts the pieces, around an opcode and a
      destination register. */
  function EncodeLiteral(op: nat, rd: nat, imm: nat): (r: (nat, nat))
    requires imm < 0x10000 && rd < 15 && op in {0xF240, 0xF2C0}
  {
    (op + 0x400 * (imm / 0x800 % 2) + imm / 0x1000, 0x1000 * (imm / 0x100 % 8) + 0x100 * rd + imm % 0x100)
  }

  /** The C emitted for MOVT: the top half replaced, the bottom kept. */
  function MovT(rd: word, imm: nat): word
    requires imm < 0x10000
  {
    rd % 0x10000 + 0x10000 * imm
  }

  /** MOVT replaces the top half and keeps the bottom, whatever the register held. */
  lemma MovTReplaces(rd: word, imm: nat)
    requires imm < 0x10000
    ensures MovT(rd, imm) % 0x10000 == rd % 0x10000 && MovT(rd, imm) / 0x10000 == imm
  {
  }

  lemma LiteralOfEncoding(op: nat, rd: nat, imm: nat)
    requires imm < 0x10000 && rd < 15 && op in {0xF240, 0xF2C0}
    ensures Literal(EncodeLiteral(op, rd, imm).0, EncodeLiteral(op, rd, imm).1) == imm
  {
    FirstPieces(op, imm / 0x800 % 2, imm / 0x1000);
    SecondPieces(imm / 0x100 % 8, rd, imm % 0x100);
    Pieces(imm);
  }

  lemma Pieces(imm: nat)
    ensures imm == 0x1000 * (imm / 0x1000) + 0x800 * (imm / 0x800 % 2) + 0x100 * (imm / 0x100 % 8) + imm % 0x100
  {
    assert imm / 0x800 == imm / 0x100 / 8 && imm / 0x1000 == imm / 0x800 / 2;
  }

  lemma FirstPieces(op: nat, i: nat, imm4: nat)
    requires i < 2 && imm4 < 16 && op in {0xF240, 0xF2C0}
    ensures var h1 := op + 0x400 * i + imm4; h1 % 0x10 == imm4 && h1 / 0x400 % 2 == i
  {
    var h1 := op + 0x400 * i + imm4;
    assert h1 / 0x400 == 60 + i;
  }

  lemma SecondPieces(imm3: nat, rd: nat, imm8: nat)
    requires imm3 < 8 && rd < 15 && imm8 < 0x100
    ensures var h2 := 0x1000 * imm3 + 0x100 * rd + imm8; h2 / 0x1000 % 8 == imm3 && h2 % 0x100 == imm8
  {
    var h2 := 0x1000 * imm3 + 0x100 * rd + imm8;
    assert h2 / 0x1000 == imm3;
  }

  /** MOVW of a word's low half and MOVT of its high half build the word. */
  lemma MovesBuildAnyWord(v: word, rd: nat)
    requires rd < 15
    ensures var (a1, a2) := EncodeLiteral(0xF240, rd, v % 0x10000);
            var (b1, b2) := EncodeLiteral(0xF2C0, rd, v / 0x10000);
            MovT(Literal(a1, a2), Literal(b1, b2)) == v
  {
    hide EncodeLiteral, Literal;
    LiteralOfEncoding(0xF240, rd, v % 0x10000);
    LiteralOfEncoding(0xF2C0, rd, v / 0x10000);
  }
}
