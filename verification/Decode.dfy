/** The control-flow half of decode.c: instruction width, class, target and condition,
    for both instruction sets. What the rest of the decoder makes of a Thumb
    data-processing or memory encoding is a parameter. */
module Decode {
  import opened Bits
  import opened Cpu
  import opened Immediate
  import opened Code

  /** What decode_t16 and decode_t32 fill in for an encoding that moves no control:
      never a branch, call or return class. */
  datatype Plain = Plain(cls: Class, op: Op, writesPc: bool)
  type DataForm = p: Plain |
    p.cls !in {Branch, Call, Return, Indirect} && (p.op == NoOp || p.op.Data? || p.op == Pop(false))
    witness Plain(Nop, NoOp, false)

  /** `sign_extend`, for a value below `2 * top`. */
  function SignExtend(v: nat, top: nat): (r: int)
    requires v < 2 * top
    ensures 0 - top <= r < top
  {
    if v < top then v else v - 2 * top
  }

  lemma Halves(x: int)
    ensures 2 * x / 2 == x && 2 * x % 2 == 0
  {
  }

  /** A halfword offset in bytes. */
  function Twice(x: int): (r: int)
    ensures r % 2 == 0
  {
    Halves(x);
    2 * x
  }

  /** The bits of `h` from weight `unit` up, below `unit * range`. */
  function Field(h: nat, unit: nat, range: nat): (r: nat)
    requires unit > 0 && range > 0
    ensures r < range
  {
    h / unit % range
  }

  /** The bits of `h` from weight `unit` up. */
  function Top(h: nat, unit: nat): nat
    requires unit > 0
  {
    h / unit
  }

  /** Addresses are 32-bit. */
  function Addr32(a: int): (r: nat)
    ensures a % 2 == 0 ==> r % 2 == 0
  {
    EvenModulo(a / 0x1_0000_0000, a % 0x1_0000_0000);
    a % 0x1_0000_0000
  }

  lemma EvenModulo(q: int, r: int)
    ensures (0x1_0000_0000 * q + r) % 2 == r % 2
  {
    assert 0x1_0000_0000 * q + r == 2 * (0x8000_0000 * q + r / 2) + r % 2;
    TwicePlus(0x8000_0000 * q + r / 2, r % 2);
  }

  lemma TwicePlus(x: int, b: int)
    requires 0 <= b < 2
    ensures (2 * x + b) % 2 == b
  {
  }

  /** A decoded record as discovery and emission need it. */
  predicate Fits(i: Insn, a: nat, width: nat) {
    && i.addr == a && i.width == width && OpFits(i)
    && (i.target.Some? && a % 2 == 0 ==> i.target.value % 2 == 0)
  }

  function Other(a: nat, width: nat, p: DataForm): (r: Insn)
    ensures Fits(r, a, width)
  {
    Insn(a, width, p.cls, None, false, false, p.op, COND_AL, false, p.writesPc, COND_AL)
  }

  /** An ARM record: a class, and that there is a condition if there is one. */
  function ArmRecord(a: nat, cls: Class, guard: nat, switches: bool): (r: Insn)
    requires cls != Branch && guard <= COND_AL
    ensures Fits(r, a, 4)
  {
    Insn(a, 4, cls, None, guard < COND_AL, switches, NoOp, COND_AL, false, false, guard)
  }

  /** Control moves, but not to an address the encoding holds. */
  function Transfer(a: nat, width: nat, cls: Class, op: Op, switches: bool): (r: Insn)
    requires cls in {Call, Return, Indirect}
    requires op == NoOp || (op == Bx && cls != Call) || (op == Blx && cls == Call) || (op == Pop(true) && cls == Return)
    ensures Fits(r, a, width)
  {
    Insn(a, width, cls, None, false, switches, op, COND_AL, op in {Bx, Blx}, false, COND_AL)
  }

  lemma TargetEven(a: nat, pc: nat, off: int)
    requires off % 2 == 0 && (pc == a + 4 || pc == a + 8 || pc % 2 == 0)
    ensures a % 2 == 0 ==> (pc + off) % 2 == 0
  {
    if a % 2 == 0 {
      var x, y := pc / 2, off / 2;
      assert pc % 2 == 0;
      assert pc + off == 2 * (x + y);
      Halves(x + y);
    }
  }

  /** A branch or call with an immediate target: an offset from what reads as the PC. */
  function Direct(a: nat, width: nat, cls: Class, op: Op, pc: nat, off: int, cond: nat, conditional: bool,
                  switches: bool): (r: Insn)
    requires (cls == Call && op == NoOp) || (cls == Branch && op in {NoOp, B, Cbz, Cbnz})
    requires (op in {Cbz, Cbnz} ==> conditional) && (cond != COND_AL ==> op == B && conditional)
    requires op == NoOp ==> !conditional
    requires off % 2 == 0 && (pc == a + 4 || pc == a + 8 || pc % 2 == 0)
    ensures Fits(r, a, width)
  {
    hide Addr32;
    TargetEven(a, pc, off);
    Insn(a, width, cls, Some(Addr32(pc + off)), conditional, switches, op, cond, false, false, COND_AL)
  }

  // ----- branch offsets

  /** The 25-bit offset of the wide unconditional forms. The two J bits are stored
      exclusive-ored with the complement of the sign. */
  function WideOffset(h1: nat, h2: nat): (r: int)
    requires h1 < 0x10000 && h2 < 0x10000
    ensures r % 2 == 0
  {
    var s, j1, j2 := h1 / 0x400 % 2, h2 / 0x2000 % 2, h2 / 0x800 % 2;
    var i1, i2 := if j1 == s then 1 else 0, if j2 == s then 1 else 0;
    SignExtend(0x100_0000 * s + 0x80_0000 * i1 + 0x40_0000 * i2 + 0x1000 * (h1 % 0x400) + 2 * (h2 % 0x800), 0x100_0000)
  }

  /** The 21-bit offset of the wide conditional form, its J bits stored as they are. */
  function CondOffset(h1: nat, h2: nat): (r: int)
    requires h1 < 0x10000 && h2 < 0x10000
    ensures r % 2 == 0
  {
    var s, j1, j2 := h1 / 0x400 % 2, h2 / 0x2000 % 2, h2 / 0x800 % 2;
    SignExtend(0x10_0000 * s + 0x8_0000 * j2 + 0x4_0000 * j1 + 0x1000 * (h1 % 0x40) + 2 * (h2 % 0x800), 0x10_0000)
  }

  /** The four wide branches, by the two bits that tell them apart. */
  datatype Wide = CondW | BW | BlxW | BlW

  /** A second halfword's bits 15, 14 and 12. */
  function FormBits(w: Wide): nat {
    0x8000 + (if w in {BlxW, BlW} then 0x4000 else 0) + (if w in {BW, BlW} then 0x1000 else 0)
  }

  function SecondHalf(w: Wide, j1: nat, j2: nat, lo: nat): (r: nat)
    requires j1 < 2 && j2 < 2 && lo < 0x800
    ensures 0x8000 <= r < 0x10000
  {
    FormBits(w) + 0x2000 * j1 + 0x800 * j2 + lo
  }

  /** The halfwords ARM DDI 0406C sections A8.8.18 and A8.8.25 assign to B.W, BL and
      BLX with an even offset (for BLX, a multiple of four). */
  function EncodeWide(w: Wide, off: int): (r: (nat, nat))
    requires -0x100_0000 <= off < 0x100_0000
    ensures 0xF000 <= r.0 < 0xF800 && 0x8000 <= r.1 < 0x10000
  {
    var u := off % 0x200_0000;
    var s, i1, i2 := u / 0x100_0000, u / 0x80_0000 % 2, u / 0x40_0000 % 2;
    var j1, j2 := if i1 == 1 then s else 1 - s, if i2 == 1 then s else 1 - s;
    (0xF000 + 0x400 * s + u / 0x1000 % 0x400, SecondHalf(w, j1, j2, u / 2 % 0x800))
  }

  /** The halfwords section A8.8.18 assigns to the conditional B.W (encoding T3). */
  function EncodeCond(cond: nat, off: int): (r: (nat, nat))
    requires cond < 14 && -0x10_0000 <= off < 0x10_0000
    ensures 0xF000 <= r.0 < 0xF800 && 0x8000 <= r.1 < 0x10000
  {
    var u := off % 0x20_0000;
    (0xF000 + 0x400 * (u / 0x10_0000) + 0x40 * cond + u / 0x1000 % 0x40,
     SecondHalf(CondW, u / 0x4_0000 % 2, u / 0x8_0000 % 2, u / 2 % 0x800))
  }

  lemma SecondHalfFields(w: Wide, j1: nat, j2: nat, lo: nat)
    requires j1 < 2 && j2 < 2 && lo < 0x800
    ensures var h2 := SecondHalf(w, j1, j2, lo);
            && h2 / 0x2000 % 2 == j1 && h2 / 0x800 % 2 == j2 && h2 % 0x800 == lo
            && h2 / 0x4000 % 2 == (if w in {BlxW, BlW} then 1 else 0)
            && h2 / 0x1000 % 2 == (if w in {BW, BlW} then 1 else 0)
  {
    var c, l := if w in {BlxW, BlW} then 1 else 0, if w in {BW, BlW} then 1 else 0;
    var h2 := SecondHalf(w, j1, j2, lo);
    assert h2 == 0x8000 + 0x4000 * c + 0x2000 * j1 + 0x1000 * l + 0x800 * j2 + lo;
    assert h2 / 0x800 == 16 + 8 * c + 4 * j1 + 2 * l + j2;
    assert h2 / 0x1000 == h2 / 0x800 / 2 == 8 + 4 * c + 2 * j1 + l;
    assert h2 / 0x2000 == h2 / 0x1000 / 2 == 4 + 2 * c + j1;
    assert h2 / 0x4000 == h2 / 0x2000 / 2 == 2 + c;
  }

  /** The offset field recovers every offset the unconditional forms can encode. */
  lemma WideOffsetOfEncoding(w: Wide, off: int)
    requires -0x100_0000 <= off < 0x100_0000 && off % 2 == 0
    ensures WideOffset(EncodeWide(w, off).0, EncodeWide(w, off).1) == off
  {
    hide WideOffset, SecondHalf;
    var u := off % 0x200_0000;
    UnsignedOffset(off);
    WideRoundTrip(w, u, u / 0x100_0000, u / 0x80_0000 % 2, u / 0x40_0000 % 2, u / 0x1000 % 0x400, u / 2 % 0x800);
  }

  lemma WideRoundTrip(w: Wide, u: nat, s: nat, i1: nat, i2: nat, hi: nat, lo: nat)
    requires u < 0x200_0000 && u % 2 == 0
    requires s == u / 0x100_0000 && i1 == u / 0x80_0000 % 2 && i2 == u / 0x40_0000 % 2
    requires hi == u / 0x1000 % 0x400 && lo == u / 2 % 0x800
    ensures var j1, j2 := if i1 == 1 then s else 1 - s, if i2 == 1 then s else 1 - s;
            WideOffset(0xF000 + 0x400 * s + hi, SecondHalf(w, j1, j2, lo)) == SignExtend(u, 0x100_0000)
  {
    hide SecondHalf;
    var j1, j2 := if i1 == 1 then s else 1 - s, if i2 == 1 then s else 1 - s;
    BlFields(u);
    FirstHalf(s, hi);
    SecondHalfFields(w, j1, j2, lo);
    WideOffsetFields(0xF000 + 0x400 * s + hi, SecondHalf(w, j1, j2, lo), s, i1, i2, hi, lo, u);
  }

  lemma FirstHalf(s: nat, hi: nat)
    requires s < 2 && hi < 0x400
    ensures var h1 := 0xF000 + 0x400 * s + hi; h1 / 0x400 % 2 == s && h1 % 0x400 == hi
  {
    var h1 := 0xF000 + 0x400 * s + hi;
    assert h1 / 0x400 == 60 + s;
  }

  lemma CondHalf(s: nat, cond: nat, hi: nat)
    requires s < 2 && cond < 14 && hi < 0x40
    ensures var h1 := 0xF000 + 0x400 * s + 0x40 * cond + hi;
            && h1 / 0x400 % 2 == s && h1 / 0x40 % 16 == cond && h1 % 0x40 == hi
            && h1 / 0x100 % 8 == 4 * s + cond / 4
  {
    var h1 := 0xF000 + 0x400 * s + 0x40 * cond + hi;
    assert h1 / 0x40 == 16 * (60 + s) + cond;
    assert h1 / 0x100 == h1 / 0x40 / 4 == 4 * (60 + s) + cond / 4;
    assert h1 / 0x400 == h1 / 0x100 / 4 == 60 + s;
  }

  lemma CondFields(u: nat)
    requires u < 0x20_0000 && u % 2 == 0
    ensures u == 0x10_0000 * (u / 0x10_0000) + 0x8_0000 * (u / 0x8_0000 % 2) + 0x4_0000 * (u / 0x4_0000 % 2)
              + 0x1000 * (u / 0x1000 % 0x40) + 2 * (u / 2 % 0x800)
  {
    assert u / 0x4_0000 == u / 0x1000 / 0x40 && u / 0x8_0000 == u / 0x4_0000 / 2 && u / 0x10_0000 == u / 0x8_0000 / 2;
    assert u / 0x1000 == u / 2 / 0x800;
  }

  /** So does the conditional form's. */
  lemma CondOffsetOfEncoding(cond: nat, off: int)
    requires cond < 14 && -0x10_0000 <= off < 0x10_0000 && off % 2 == 0
    ensures var (h1, h2) := EncodeCond(cond, off);
            CondOffset(h1, h2) == off && h1 / 0x40 % 16 == cond && (h1 / 0x100 % 8 == 7 <==> off < 0 && cond >= 12)
            && h2 / 0x4000 % 2 == 0 == h2 / 0x1000 % 2
  {
    hide SecondHalf;
    var u := off % 0x20_0000;
    UnsignedCondOffset(off);
    CondFields(u);
    CondHalf(u / 0x10_0000, cond, u / 0x1000 % 0x40);
    SecondHalfFields(CondW, u / 0x4_0000 % 2, u / 0x8_0000 % 2, u / 2 % 0x800);
  }

  lemma UnsignedCondOffset(off: int)
    requires -0x10_0000 <= off < 0x10_0000 && off % 2 == 0
    ensures var u := off % 0x20_0000;
            u % 2 == 0 && u == (if off < 0 then off + 0x20_0000 else off) && u / 0x10_0000 == if off < 0 then 1 else 0
  {
  }

  lemma UnsignedOffset(off: int)
    requires -0x100_0000 <= off < 0x100_0000 && off % 2 == 0
    ensures var u := off % 0x200_0000; u % 2 == 0 && u == if off < 0 then off + 0x200_0000 else off
  {
  }

  lemma WideOffsetFields(h1: nat, h2: nat, s: nat, i1: nat, i2: nat, hi: nat, lo: nat, u: nat)
    requires h1 < 0x10000 && h2 < 0x10000 && s < 2 && i1 < 2 && i2 < 2 && u < 0x200_0000
    requires h1 / 0x400 % 2 == s && h1 % 0x400 == hi && h2 % 0x800 == lo
    requires h2 / 0x2000 % 2 == (if i1 == 1 then s else 1 - s) && h2 / 0x800 % 2 == (if i2 == 1 then s else 1 - s)
    requires u == 0x100_0000 * s + 0x80_0000 * i1 + 0x40_0000 * i2 + 0x1000 * hi + 2 * lo
    ensures WideOffset(h1, h2) == SignExtend(u, 0x100_0000)
  {
  }

  lemma BlFields(u: nat)
    requires u < 0x200_0000 && u % 2 == 0
    ensures u == 0x100_0000 * (u / 0x100_0000) + 0x80_0000 * (u / 0x80_0000 % 2) + 0x40_0000 * (u / 0x40_0000 % 2)
              + 0x1000 * (u / 0x1000 % 0x400) + 2 * (u / 2 % 0x800)
  {
    assert u / 0x40_0000 == u / 0x1000 / 0x400 && u / 0x80_0000 == u / 0x40_0000 / 2;
    assert u / 0x100_0000 == u / 0x80_0000 / 2;
    assert u / 0x1000 == u / 2 / 0x800;
  }

  // ----- 16-bit Thumb

  function IfThen(a: nat, cond: nat, mask: nat): (r: Insn)
    ensures Fits(r, a, 2)
  {
    Insn(a, 2, Sys, None, false, false, It(mask), cond, false, false, COND_AL)
  }

  /** Branches with their offset in the halfword. */
  function DecodeBranch16(h: nat, a: nat): (r: Insn)
    requires h < 0xE800
    ensures Fits(r, a, 2)
  {
    hide Fits, OpFits, SignExtend, Field, Top, Direct, Other, Twice;
    var cond := Field(h, 0x100, 16);
    if Top(h, 0x1000) == 0xE then
      Direct(a, 2, Branch, B, a + 4, Twice(SignExtend(Field(h, 1, 0x800), 0x400)), COND_AL, false, false)
    else if cond == 15 then Other(a, 2, Plain(Sys, Data(false), false))
    else if cond == 14 then Other(a, 2, Plain(Undef, NoOp, false))
    else Direct(a, 2, Branch, B, a + 4, Twice(SignExtend(Field(h, 1, 0x100), 0x80)), cond, true, false)
  }

  /** CBZ and CBNZ only branch forwards. */
  function DecodeCompareBranch(h: nat, a: nat): (r: Insn)
    ensures Fits(r, a, 2)
  {
    hide Fits, OpFits, Field, Direct, Twice;
    Direct(a, 2, Branch, if Field(h, 0x800, 2) == 1 then Cbnz else Cbz,
           a + 4, Twice(32 * Field(h, 0x200, 2) + Field(h, 8, 32)), COND_AL, true, false)
  }

  function DecodeT16(h: nat, a: nat, data: nat -> DataForm): (r: Insn)
    requires h < 0xE800
    ensures Fits(r, a, 2)
  {
    hide Fits, OpFits, Field, Top, Transfer, Other, IfThen, DecodeBranch16, DecodeCompareBranch;
    var rm, form := Field(h, 8, 16), Field(h, 0x100, 4);
    if Top(h, 0x100) == 0x47 then
      if Field(h, 0x80, 2) == 1 then Transfer(a, 2, Call, Blx, true)
      else if rm == 14 then Transfer(a, 2, Return, Bx, false)
      else Transfer(a, 2, Indirect, Bx, true)
    else if Top(h, 0x400) == 0x11 && 8 * Field(h, 0x80, 2) + Field(h, 1, 8) == 15 && form != 1 then
      Transfer(a, 2, if form == 2 && rm == 14 then Return else Indirect, Bx, false)
    else if Top(h, 0x100) == 0xBF && Field(h, 1, 16) != 0 then IfThen(a, Field(h, 16, 16), Field(h, 1, 16))
    else if Top(h, 0x100) == 0xBD then Transfer(a, 2, Return, Pop(true), false)
    else if Top(h, 0x100) in {0xB1, 0xB3, 0xB9, 0xBB} then DecodeCompareBranch(h, a)
    else if Top(h, 0x1000) in {0xD, 0xE} then DecodeBranch16(h, a)
    else Other(a, 2, data(h))
  }

  // ----- 32-bit Thumb

  /** `Align(PC, 4)`. */
  function WordAligned(a: nat): (r: nat)
    ensures r % 2 == 0 && r <= a < r + 4
  {
    Halves(2 * (a / 4));
    2 * (2 * (a / 4))
  }

  /** The four wide branch forms, told apart by bits 14 and 12 of the second half. */
  function DecodeWideBranch(h1: nat, h2: nat, a: nat): (r: Insn)
    requires h1 < 0x10000 && h2 < 0x10000
    ensures Fits(r, a, 4)
  {
    hide Fits, OpFits, WideOffset, CondOffset, Field, Direct, Other, WordAligned;
    var isCall, low := Field(h2, 0x4000, 2) == 1, Field(h2, 0x1000, 2) == 1;
    if isCall && low then Direct(a, 4, Call, NoOp, a + 4, WideOffset(h1, h2), COND_AL, false, false)
    else if isCall then Direct(a, 4, Call, NoOp, WordAligned(a + 4), WideOffset(h1, h2 / 2 * 2), COND_AL, false, true)
    else if low then Direct(a, 4, Branch, B, a + 4, WideOffset(h1, h2), COND_AL, false, false)
    else if Field(h1, 0x100, 8) == 7 then Other(a, 4, Plain(Sys, NoOp, false))
    else Direct(a, 4, Branch, B, a + 4, CondOffset(h1, h2), Field(h1, 0x40, 16), true, false)
  }

  /** LDM.W and STM.W: a load of the PC is a return, and one on sp is PUSH or POP. */
  function DecodeMultiple(h1: nat, h2: nat, a: nat): (r: Insn)
    ensures Fits(r, a, 4)
  {
    hide Fits, OpFits, Field, Transfer, Other;
    var load := Field(h1, 0x10, 2) == 1;
    if load && h2 >= 0x8000 then Transfer(a, 4, Return, NoOp, false)
    else
      var op := if Field(h1, 1, 16) != 13 then NoOp else if load then Pop(false) else Data(true);
      Other(a, 4, Plain(if load then LoadM else StoreM, op, false))
  }

  function DecodeT32(h1: nat, h2: nat, a: nat, data: nat -> DataForm): (r: Insn)
    requires 0xE800 <= h1 < 0x10000 && h2 < 0x10000
    ensures Fits(r, a, 4)
  {
    hide Fits, OpFits, Field, Top, Transfer, Other, DecodeWideBranch, DecodeMultiple;
    var plain := Other(a, 4, data(0x10000 * h1 + h2));
    if Top(h1, 0x2000) == 7 && Field(h1, 0x400, 4) == 3 then plain
    else if Top(h1, 0x800) == 0x1E && h2 >= 0x8000 then DecodeWideBranch(h1, h2, a)
    else if Top(h1, 0x200) == 0x74 && Field(h1, 0x40, 2) == 0 then DecodeMultiple(h1, h2, a)
    else if Top(h1, 0x200) == 0x7C && Field(h1, 0x10, 2) == 1 && Top(h2, 0x1000) == 15 then
      Transfer(a, 4, Return, NoOp, false)
    else if Top(h1, 0x10) == 0xE8D && Top(h2, 0x20) == 0x780 then Transfer(a, 4, Indirect, NoOp, false)
    else plain
  }

  /** The record of a branch or call to `to`, unconditional unless `cond` says otherwise. */
  predicate Leads(i: Insn, a: nat, width: nat, cls: Class, op: Op, cond: nat, to: int) {
    && i.addr == a && i.width == width && i.cls == cls && i.op == op && i.cond == cond
    && i.target == Some(to % 0x1_0000_0000)
  }

  /** Every B.W, BL and BLX the architecture can encode is decoded as what it is, to
      the target it names: an offset from the next but one halfword, for BLX rounded down
      to a word. */
  lemma WideBranchDecodes(w: Wide, off: int, a: nat, data: nat -> DataForm)
    requires w != CondW && -0x100_0000 <= off < 0x100_0000 && off % 2 == 0 && (w == BlxW ==> off % 4 == 0)
    ensures var (h1, h2) := EncodeWide(w, off);
            var r := DecodeT32(h1, h2, a, data);
            && Leads(r, a, 4, if w == BW then Branch else Call, if w == BW then B else NoOp, COND_AL,
                     (if w == BlxW then (a + 4) / 4 * 4 else a + 4) + off)
            && !r.conditional && (r.switches <==> w == BlxW)
  {
    hide WideOffset, SecondHalf, Other, Transfer, Fits;
    var (h1, h2) := EncodeWide(w, off);
    WideOffsetOfEncoding(w, off);
    WideForm(w, off);
    WideGroup(h1, h2, a, data);
  }

  /** The form bits of an encoded branch; in a BLX the low offset bit is clear. */
  lemma WideForm(w: Wide, off: int)
    requires -0x100_0000 <= off < 0x100_0000 && off % 2 == 0
    ensures var h2 := EncodeWide(w, off).1;
            && h2 / 0x4000 % 2 == (if w in {BlxW, BlW} then 1 else 0)
            && h2 / 0x1000 % 2 == (if w in {BW, BlW} then 1 else 0)
            && (off % 4 == 0 ==> h2 / 2 * 2 == h2)
  {
    hide SecondHalf;
    var u := off % 0x200_0000;
    var s, i1, i2 := u / 0x100_0000, u / 0x80_0000 % 2, u / 0x40_0000 % 2;
    var j1, j2 := if i1 == 1 then s else 1 - s, if i2 == 1 then s else 1 - s;
    SecondHalfFields(w, j1, j2, u / 2 % 0x800);
    if off % 4 == 0 {
      LowBitClear(u, EncodeWide(w, off).1, off);
    }
  }

  lemma LowBitClear(u: nat, h2: nat, off: int)
    requires u == off % 0x200_0000 && off % 4 == 0 && h2 % 0x800 == u / 2 % 0x800
    ensures h2 / 2 * 2 == h2
  {
    var t := off / 4 - 0x80_0000 * (off / 0x200_0000);
    assert u == 2 * (2 * t);
    Halves(2 * t);
    Remainder(t);
    assert h2 == 2 * (0x400 * (h2 / 0x800) + t % 0x400);
    Halves(0x400 * (h2 / 0x800) + t % 0x400);
  }

  lemma Remainder(t: nat)
    ensures 2 * t % 0x800 == 2 * (t % 0x400)
  {
    var e, f := t / 0x400, t % 0x400;
    assert 2 * t == 0x800 * e + 2 * f;
  }

  /** Halfwords of the branch group go to the branch decoder. */
  lemma WideGroup(h1: nat, h2: nat, a: nat, data: nat -> DataForm)
    requires 0xF000 <= h1 < 0xF800 && 0x8000 <= h2 < 0x10000
    ensures DecodeT32(h1, h2, a, data) == DecodeWideBranch(h1, h2, a)
  {
    hide DecodeWideBranch, Other, Transfer, Fits;
    assert Field(h1, 0x400, 4) != 3;
    assert Top(h1, 0x800) == 0x1E;
  }

  /** The conditional B.W is decoded as what it is exactly when it does not branch
      backwards on one of the conditions gt and le: those are taken for system
      instructions. */
  lemma CondBranchDecodesIff(cond: nat, off: int, a: nat, data: nat -> DataForm)
    requires cond < 14 && -0x10_0000 <= off < 0x10_0000 && off % 2 == 0
    ensures var r := DecodeT32(EncodeCond(cond, off).0, EncodeCond(cond, off).1, a, data);
            Leads(r, a, 4, Branch, B, cond, a + 4 + off) && r.conditional && !r.switches
            <==> !(off < 0 && cond >= 12)
  {
    hide CondOffset, SecondHalf, WideOffset, Fits;
    var (h1, h2) := EncodeCond(cond, off);
    CondOffsetOfEncoding(cond, off);
    WideGroup(h1, h2, a, data);
  }

  /** The other side of the same test. Of the words in the conditional form, a condition
      field of 14 or 15 means a system instruction; the test recognises one exactly when
      the sign bit of the branch offset happens to be set, and takes a branch for one
      exactly when that bit is set and the condition is gt or le. */
  lemma SystemTestIff(h1: nat, h2: nat, a: nat, data: nat -> DataForm)
    requires 0xF000 <= h1 < 0xF800 && 0x8000 <= h2 < 0x10000
    requires h2 / 0x4000 % 2 == 0 == h2 / 0x1000 % 2
    ensures var r, cond, sign := DecodeT32(h1, h2, a, data), h1 / 0x40 % 16, h1 / 0x400 % 2;
            && (r.cls == Sys <==> sign == 1 && cond >= 12)
            && (r.cls != Sys ==> r.cls == Branch && r.op == B && r.cond == cond && r.target.Some?)
            && ((r.cls == Sys <==> cond >= 14) <==> if sign == 1 then cond !in {12, 13} else cond < 14)
  {
    hide CondOffset, WideOffset, Fits, Addr32;
    WideGroup(h1, h2, a, data);
    CondBits(h1);
  }

  lemma CondBits(h1: nat)
    ensures h1 / 0x100 % 8 == 4 * (h1 / 0x400 % 2) + h1 / 0x40 % 16 / 4
  {
    var u := h1 / 0x40;
    var e, x := u / 32, u % 32;
    FieldsOf32(e, x);
    assert h1 / 0x100 == u / 4 && h1 / 0x400 == u / 16;
  }

  lemma FieldsOf32(e: nat, x: nat)
    requires x < 32
    ensures (32 * e + x) / 4 % 8 == x / 4 && (32 * e + x) / 16 % 2 == x / 16 && (32 * e + x) % 16 / 4 == x % 16 / 4
    ensures x / 4 == 4 * (x / 16) + x % 16 / 4
  {
    Quotient(4, 8 * e + x / 4, x % 4, 32 * e + x);
    Quotient(8, e, x / 4, 8 * e + x / 4);
    Quotient(16, 2 * e + x / 16, x % 16, 32 * e + x);
    Quotient(2, e, x / 16, 2 * e + x / 16);
    Quotient(4, x / 16 * 4 + x % 16 / 4, x % 4, x);
  }

  lemma Quotient(d: nat, q: nat, r: nat, n: nat)
    requires r < d && n == d * q + r
    ensures n / d == q && n % d == r
  {
    var x, y := n / d, n % d;
    assert n == d * x + y && 0 <= y < d;
    SmallMultiple(d, q - x, y - r);
  }

  lemma SmallMultiple(d: nat, k: int, v: int)
    requires v == d * k && 0 - d < v < d
    ensures k == 0
  {
  }

  /** DMB and NOP.W are decoded as branches. */
  lemma BarrierAndHintAreBranches(a: nat, data: nat -> DataForm)
    ensures DecodeT32(0xF3BF, 0x8F5F, a, data).cls == Branch == DecodeT32(0xF3AF, 0x8000, a, data).cls
    ensures DecodeT32(0xF3BF, 0x8F5F, a, data).cond == 14 == DecodeT32(0xF3AF, 0x8000, a, data).cond
  {
    hide DecodeT32;
    SystemTestIff(0xF3BF, 0x8F5F, a, data);
    SystemTestIff(0xF3AF, 0x8000, a, data);
  }

  // ----- 16-bit branches

  lemma SignExtendOf(x: int, top: nat)
    requires 0 < top && 0 - top <= x < top
    ensures x % (2 * top) < 2 * top && SignExtend(x % (2 * top), top) == x
  {
    if x >= 0 {
      Quotient(2 * top, 0, x, x);
    } else {
      WrapsOnce(2 * top, x);
    }
  }

  lemma WrapsOnce(d: nat, x: int)
    requires 0 < d && 0 - d <= x < 0
    ensures x % d == if x == 0 - d then 0 else x + d
  {
  }

  /** Halfwords of the branch group go to the branch decoder. */
  lemma BranchGroup16(h: nat, a: nat, data: nat -> DataForm)
    requires 0xD000 <= h < 0xE800
    ensures DecodeT16(h, a, data) == DecodeBranch16(h, a)
  {
    assert Top(h, 0x1000) in {0xD, 0xE} && Top(h, 0x100) >= 0xD0 && Top(h, 0x400) >= 0x34;
    hide DecodeBranch16, Other, Transfer, IfThen, DecodeCompareBranch, Fits, Field, Top;
  }

  lemma DirectLeads(a: nat, width: nat, cls: Class, op: Op, pc: nat, off: int, cond: nat, conditional: bool,
                    switches: bool)
    requires (cls == Call && op == NoOp) || (cls == Branch && op in {NoOp, B, Cbz, Cbnz})
    requires (op in {Cbz, Cbnz} ==> conditional) && (cond != COND_AL ==> op == B && conditional)
    requires op == NoOp ==> !conditional
    requires off % 2 == 0 && (pc == a + 4 || pc == a + 8 || pc % 2 == 0)
    ensures var r := Direct(a, width, cls, op, pc, off, cond, conditional, switches);
            Leads(r, a, width, cls, op, cond, pc + off) && r.conditional == conditional && r.switches == switches
  {
    hide Fits, OpFits;
  }

  /** Every 16-bit B (A8.8.18 of ARM DDI 0406C, encoding T2) is decoded as one, `x` halfwords
      from the next but one. */
  lemma BranchDecodes16(x: int, a: nat, data: nat -> DataForm)
    requires -1024 <= x < 1024
    ensures var r := DecodeT16(0xE000 + x % 0x800, a, data);
            Leads(r, a, 2, Branch, B, COND_AL, a + 4 + 2 * x) && !r.conditional && !r.switches
  {
    SignExtendOf(x, 0x400);
    BranchDecoded16(x, x % 0x800, a, data);
  }

  lemma BranchDecoded16(x: int, v: nat, a: nat, data: nat -> DataForm)
    requires v < 0x800 && SignExtend(v, 0x400) == x
    ensures var r := DecodeT16(0xE000 + v, a, data);
            Leads(r, a, 2, Branch, B, COND_AL, a + 4 + 2 * x) && !r.conditional && !r.switches
  {
    Fields16(v);
    BranchGroup16(0xE000 + v, a, data);
    DirectLeads(a, 2, Branch, B, a + 4, Twice(x), COND_AL, false, false);
    hide DecodeT16, Direct, Other, SignExtend, Fits, Leads, Field, Top;
  }

  lemma Fields16(v: nat)
    requires v < 0x800
    ensures 0xE000 + v < 0xE800 && Top(0xE000 + v, 0x1000) == 14 && Field(0xE000 + v, 1, 0x800) == v
  {
    Quotient(0x800, 28, v, 0xE000 + v);
    Quotient(0x1000, 14, v, 0xE000 + v);
  }

  lemma CondFields16(cond: nat, v: nat)
    requires cond < 14 && v < 0x100
    ensures var h := 0xD000 + 0x100 * cond + v;
            && 0xD000 <= h < 0xE800 && Field(h, 0x100, 16) == cond && Top(h, 0x1000) == 13 && Field(h, 1, 0x100) == v
  {
    var h := 0xD000 + 0x100 * cond + v;
    Quotient(0x100, 0xD0 + cond, v, h);
    Quotient(16, 13, cond, 0xD0 + cond);
    Quotient(0x1000, 13, 0x100 * cond + v, h);
  }

  /** Every 16-bit conditional B (encoding T1). */
  lemma CondBranchDecodes16(cond: nat, x: int, a: nat, data: nat -> DataForm)
    requires cond < 14 && -128 <= x < 128
    ensures var r := DecodeT16(0xD000 + 0x100 * cond + x % 0x100, a, data);
            Leads(r, a, 2, Branch, B, cond, a + 4 + 2 * x) && r.conditional && !r.switches
  {
    SignExtendOf(x, 0x80);
    CondBranchDecoded16(cond, x, x % 0x100, a, data);
  }

  lemma CondBranchDecoded16(cond: nat, x: int, v: nat, a: nat, data: nat -> DataForm)
    requires cond < 14 && v < 0x100 && SignExtend(v, 0x80) == x
    ensures var r := DecodeT16(0xD000 + 0x100 * cond + v, a, data);
            Leads(r, a, 2, Branch, B, cond, a + 4 + 2 * x) && r.conditional && !r.switches
  {
    CondFields16(cond, v);
    BranchGroup16(0xD000 + 0x100 * cond + v, a, data);
    DirectLeads(a, 2, Branch, B, a + 4, Twice(x), cond, true, false);
    hide DecodeT16, Direct, Other, SignExtend, Fits, Leads, Field, Top;
  }

  lemma FieldsOfCompare(n: nat, i: nat, imm: nat, rn: nat, h: nat)
    requires n < 2 && i < 2 && imm < 32 && rn < 8 && h == 0xB100 + 0x800 * n + 0x200 * i + 8 * imm + rn
    ensures h < 0xE800 && Top(h, 0x100) == 0xB1 + 8 * n + 2 * i && Top(h, 0x400) == 0x2C + 2 * n
    ensures Field(h, 0x200, 2) == i && Field(h, 0x800, 2) == n && Field(h, 8, 32) == imm
  {
    var low := 8 * imm + rn;
    Quotient(0x100, 0xB1 + 8 * n + 2 * i, low, h);
    Quotient(0x400, 0x2C + 2 * n, 0x100 + 0x200 * i + low, h);
    Quotient(0x200, 0x58 + 4 * n + i, 0x100 + low, h);
    Quotient(2, 0x2C + 2 * n, i, 0x58 + 4 * n + i);
    Quotient(0x800, 0x16 + n, 0x100 + 0x200 * i + low, h);
    Quotient(2, 0xB, n, 0x16 + n);
    Quotient(8, 0x1620 + 0x100 * n + 0x40 * i + imm, rn, h);
    Quotient(32, 0xB1 + 8 * n + 2 * i, imm, 0x1620 + 0x100 * n + 0x40 * i + imm);
  }

  /** Halfwords of the compare group go to its decoder. */
  lemma CompareGroup(h: nat, a: nat, data: nat -> DataForm)
    requires h < 0xE800 && Top(h, 0x100) in {0xB1, 0xB3, 0xB9, 0xBB} && Top(h, 0x400) >= 0x2C
    ensures DecodeT16(h, a, data) == DecodeCompareBranch(h, a)
  {
    hide DecodeBranch16, Other, Transfer, IfThen, DecodeCompareBranch, Fits, Field, Top;
  }

  /** Every CBZ and CBNZ (A8.8.29): forwards by up to 63 halfwords, the top bit of which
      stands apart, on the register being zero or not. */
  lemma CompareBranchDecodes(n: nat, i: nat, imm: nat, rn: nat, a: nat, data: nat -> DataForm)
    requires n < 2 && i < 2 && imm < 32 && rn < 8
    ensures var r := DecodeT16(0xB100 + 0x800 * n + 0x200 * i + 8 * imm + rn, a, data);
            && Leads(r, a, 2, Branch, if n == 1 then Cbnz else Cbz, COND_AL, a + 4 + 2 * (32 * i + imm))
            && r.conditional && !r.switches
  {
    hide Field, Top, Leads, DecodeCompareBranch, DecodeT16;
    var h := 0xB100 + 0x800 * n + 0x200 * i + 8 * imm + rn;
    FieldsOfCompare(n, i, imm, rn, h);
    CompareGroup(h, a, data);
    CompareRecord(h, n, i, imm, a);
  }

  lemma CompareRecord(h: nat, n: nat, i: nat, imm: nat, a: nat)
    requires Field(h, 0x200, 2) == i && Field(h, 0x800, 2) == n && Field(h, 8, 32) == imm && n < 2
    ensures var r := DecodeCompareBranch(h, a);
            && Leads(r, a, 2, Branch, if n == 1 then Cbnz else Cbz, COND_AL, a + 4 + 2 * (32 * i + imm))
            && r.conditional && !r.switches
  {
    hide Field, Direct, Fits, Leads;
    DirectLeads(a, 2, Branch, if n == 1 then Cbnz else Cbz, a + 4, Twice(32 * i + imm), COND_AL, true, false);
  }

  // ----- 16-bit transfers through a register, returns, IT

  /** BX and BLX (A8.8.25, A8.8.24): through lr a BX is a return. */
  lemma ExchangeDecodes16(link: nat, rm: nat, low: nat, a: nat, data: nat -> DataForm)
    requires link < 2 && rm < 16 && low < 8
    ensures var r := DecodeT16(0x4700 + 0x80 * link + 8 * rm + low, a, data);
            && r.op == (if link == 1 then Blx else Bx) && r.hasReg && r.target.None? && !r.conditional
            && (r.switches <==> r.cls != Return)
            && r.cls == (if link == 1 then Call else if rm == 14 then Return else Indirect)
  {
    var h := 0x4700 + 0x80 * link + 8 * rm + low;
    Quotient(0x100, 0x47, 0x80 * link + 8 * rm + low, h);
    Quotient(0x80, 0x8E + link, 8 * rm + low, h);
    Quotient(2, 0x47, link, 0x8E + link);
    Quotient(8, 0x8E0 + 0x10 * link + rm, low, h);
    Quotient(16, 0x8E + link, rm, 0x8E0 + 0x10 * link + rm);
    hide Fits, Other, DecodeBranch16, DecodeCompareBranch, IfThen;
  }

  /** POP that lists the PC (A8.8.131) is a return. */
  lemma PopDecodes16(list: nat, a: nat, data: nat -> DataForm)
    requires list < 0x100
    ensures var r := DecodeT16(0xBD00 + list, a, data);
            r.cls == Return && r.op == Pop(true) && r.target.None? && !r.conditional
  {
    var h := 0xBD00 + list;
    Quotient(0x100, 0xBD, list, h);
    Quotient(0x400, 0x2F, 0x100 + list, h);
    hide Fits, Other, DecodeBranch16, DecodeCompareBranch, IfThen;
  }

  /** IT (A8.8.54) keeps its condition and its mask; without a mask it is a hint. */
  lemma IfThenDecodes(cond: nat, mask: nat, a: nat, data: nat -> DataForm)
    requires cond < 16 && mask < 16
    ensures var r := DecodeT16(0xBF00 + 0x10 * cond + mask, a, data);
            if mask > 0 then r.op == It(mask) && r.cond == cond && r.cls == Sys else !r.op.It?
  {
    var h := 0xBF00 + 0x10 * cond + mask;
    Quotient(0x100, 0xBF, 0x10 * cond + mask, h);
    Quotient(0x400, 0x2F, 0x300 + 0x10 * cond + mask, h);
    Quotient(0x1000, 0xB, 0xF00 + 0x10 * cond + mask, h);
    Quotient(16, 0xBF0 + cond, mask, h);
    Quotient(16, 0xBF, cond, 0xBF0 + cond);
    hide Fits, DecodeBranch16, DecodeCompareBranch;
  }

  /** What moves no control and is no IT or hole of the branch group is as `data` has it. */
  lemma PlainForms16(h: nat, a: nat, data: nat -> DataForm)
    requires h < 0xE800 && DecodeT16(h, a, data).cls !in {Branch, Call, Return, Indirect}
    requires !(0xBF00 <= h < 0xC000) && !(0xDE00 <= h < 0xE000)
    ensures var r := DecodeT16(h, a, data);
            r.cls == data(h).cls && r.op == data(h).op && r.writesPc == data(h).writesPc && r.target.None?
  {
    Pages(h);
    hide Fits, OpFits, Direct, SignExtend, Field;
    assert Top(h, 0x100) == 0xBF ==> 0xBF00 <= h < 0xC000;
  }

  /** Nothing else of 16 bits moves control: only BX and BLX, MOV and ADD to the PC, CBZ and
      CBNZ, POP with the PC, and the branches. */
  lemma MovesControl16(h: nat, a: nat, data: nat -> DataForm)
    requires h < 0xE800
    ensures DecodeT16(h, a, data).cls in {Branch, Call, Return, Indirect} <==>
            || 0x4700 <= h < 0x4800
            || (0x4400 <= h < 0x4700 && !(0x4500 <= h < 0x4600) && h % 8 == 7 && h / 0x80 % 2 == 1)
            || (0xB000 <= h < 0xC000 && h / 0x100 % 16 in {1, 3, 9, 11, 13})
            || 0xD000 <= h < 0xDE00 || 0xE000 <= h
  {
    Pages(h);
    hide Fits, OpFits, Direct, Other, SignExtend;
  }

  lemma Pages(h: nat)
    requires h < 0xE800
    ensures Top(h, 0x100) == 0x47 <==> 0x4700 <= h < 0x4800
    ensures Top(h, 0x100) == 0xBD <==> 0xB000 <= h < 0xC000 && h / 0x100 % 16 == 13
    ensures Top(h, 0x100) in {0xB1, 0xB3, 0xB9, 0xBB} <==> 0xB000 <= h < 0xC000 && h / 0x100 % 16 in {1, 3, 9, 11}
    ensures Top(h, 0x400) == 0x11 && Field(h, 0x100, 4) == 1 <==> 0x4500 <= h < 0x4600
    ensures Top(h, 0x400) == 0x11 <==> 0x4400 <= h < 0x4800
    ensures Top(h, 0x1000) == 0xD && Field(h, 0x100, 16) < 14 <==> 0xD000 <= h < 0xDE00
    ensures Top(h, 0x1000) == 0xE <==> 0xE000 <= h
  {
  }

  /** Of 32 bits these move control and no others: the branch group without what is taken
      for system instructions, load multiple with the PC, single loads with Rt 15, TBB and
      TBH. */
  lemma MovesControl32(h1: nat, h2: nat, a: nat, data: nat -> DataForm)
    requires 0xE800 <= h1 < 0x10000 && h2 < 0x10000
    ensures var cls := DecodeT32(h1, h2, a, data).cls;
            && (cls == Call <==> InBranchGroup(h1, h2) && h2 / 0x4000 % 2 == 1)
            && (cls == Branch <==> InBranchGroup(h1, h2) && h2 / 0x4000 % 2 == 0
                                   && (h2 / 0x1000 % 2 == 1 || h1 / 0x100 % 8 != 7))
            && (cls == Return <==> h1 / 0x10 % 2 == 1
                                   && ((h1 / 0x200 == 0x74 && h1 / 0x40 % 2 == 0 && h2 >= 0x8000)
                                       || (0xF800 <= h1 < 0xFA00 && h2 >= 0xF000)))
            && (cls == Indirect <==> 0xE8D0 <= h1 < 0xE8E0 && 0xF000 <= h2 < 0xF020)
  {
    Groups(h1);
    hide Fits, OpFits, Direct, WideOffset, CondOffset, WordAligned;
  }

  /** What moves no control, outside the branch group and load and store multiple, is as
      `data` has it. */
  lemma PlainForms32(h1: nat, h2: nat, a: nat, data: nat -> DataForm)
    requires 0xE800 <= h1 < 0x10000 && h2 < 0x10000
    requires DecodeT32(h1, h2, a, data).cls !in {Branch, Call, Return, Indirect}
    requires !InBranchGroup(h1, h2) && !(h1 < 0xEA00 && h1 / 0x40 % 2 == 0)
    ensures var r, d := DecodeT32(h1, h2, a, data), data(0x1_0000 * h1 + h2);
            r.cls == d.cls && r.op == d.op && r.writesPc == d.writesPc && r.target.None?
  {
    Groups(h1);
    hide Fits, OpFits, Direct, Field;
    assert Field(h1, 0x40, 2) == h1 / 0x40 % 2 by { FieldIs(h1); }
  }

  lemma FieldIs(h1: nat)
    ensures Field(h1, 0x40, 2) == h1 / 0x40 % 2
  {
  }

  predicate InBranchGroup(h1: nat, h2: nat) {
    0xF000 <= h1 < 0xF800 && h2 >= 0x8000
  }

  lemma Groups(h1: nat)
    requires 0xE800 <= h1 < 0x10000
    ensures Top(h1, 0x2000) == 7
    ensures Field(h1, 0x400, 4) == 3 <==> 0xEC00 <= h1 < 0xF000 || 0xFC00 <= h1
    ensures Top(h1, 0x800) == 0x1E <==> 0xF000 <= h1 < 0xF800
    ensures Top(h1, 0x200) == 0x74 <==> h1 < 0xEA00
    ensures Top(h1, 0x200) == 0x7C <==> 0xF800 <= h1 < 0xFA00
    ensures Top(h1, 0x10) == 0xE8D <==> 0xE8D0 <= h1 < 0xE8E0
    ensures 0xE8D0 <= h1 < 0xE8E0 ==> h1 / 0x40 % 2 == 1
  {
  }

  // ----- what a record says and the word does not

  /** In the single-load group, Rt 15 is a load of the PC for words only; for bytes and
      halfwords it is a preload hint. The decoder takes all of them for returns. Whether
      the word loaded is where the caller is, the encoding does not say. */
  lemma LoadPcIff(h1: nat, h2: nat, a: nat, data: nat -> DataForm)
    requires 0xF800 <= h1 < 0xFA00 && h2 < 0x10000
    ensures var r := DecodeT32(h1, h2, a, data);
            var toPc, aWord := h1 / 0x10 % 2 == 1 && h2 / 0x1000 == 15, h1 / 0x20 % 4 == 2 && h1 / 0x100 % 2 == 0;
            && (r.cls == Return <==> toPc) && (r.cls == Return ==> r.op == NoOp)
            && ((r.cls == Return <==> toPc && aWord) <==> !toPc || aWord)
  {
    hide DecodeWideBranch, Fits, DecodeMultiple;
    assert Field(h1, 0x400, 4) == 2;
  }

  /** Where a high-register instruction with destination PC goes: MOV to the register's
      value `v`, ADD as far beyond the PC. */
  function Destination(form: nat, a: nat, v: nat): nat {
    if form == 2 then v else (a + 4 + v) % 0x1_0000_0000
  }

  /** Both are recorded as a transfer to the register's value; that is right for MOV, and
      for ADD nowhere but in front of address zero. */
  lemma WriteOfPcIff(h: nat, a: nat, data: nat -> DataForm)
    requires h / 0x400 == 0x11 && 8 * (h / 0x80 % 2) + h % 8 == 15 && h / 0x100 % 4 in {0, 2}
    ensures var r, form := DecodeT16(h, a, data), h / 0x100 % 4;
            && r.op == Bx && (r.cls == Return <==> form == 2 && h / 8 % 16 == 14)
            && ((forall v: nat :: v < 0x1_0000_0000 ==> Destination(form, a, v) == v)
                <==> form == 2 || (a + 4) % 0x1_0000_0000 == 0)
  {
    hide Fits, Other, DecodeBranch16, DecodeCompareBranch, IfThen;
    var pc := a + 4;
    assert Top(h, 0x100) / 4 == 0x11 && Top(h, 0x100) % 4 == h / 0x100 % 4;
    assert Destination(0, a, 0) == pc % 0x1_0000_0000;
    if pc % 0x1_0000_0000 == 0 {
      forall v: nat | v < 0x1_0000_0000 ensures Destination(0, a, v) == v {
        assert pc + v == 0x1_0000_0000 * (pc / 0x1_0000_0000) + v;
      }
    }
  }

  /** The lowest address of a load or store multiple of `n` registers, and sp after it;
      bits 7 and 8 tell upwards (1) from downwards (2), bit 5 whether sp is written. */
  function Lowest(h1: nat, sp: int, n: nat): int {
    if h1 / 0x80 % 4 == 1 then sp else sp - 4 * n
  }

  function Moved(h1: nat, sp: int, n: nat): int {
    if h1 / 0x20 % 2 == 0 then sp else if h1 / 0x80 % 4 == 1 then sp + 4 * n else sp - 4 * n
  }

  /** Every LDM.W or STM.W on sp is recorded as POP or PUSH, which read upwards from sp
      and write below it; it is one exactly when it writes sp back and has that direction. */
  lemma StackFormIff(h1: nat, h2: nat, a: nat, data: nat -> DataForm)
    requires h1 / 0x200 == 0x74 && h1 / 0x40 % 2 == 0 && h1 % 16 == 13 && h1 / 0x80 % 4 in {1, 2} && h2 < 0x10000
    ensures var r, load := DecodeT32(h1, h2, a, data), h1 / 0x10 % 2 == 1;
            && (r.op == if load && h2 >= 0x8000 then NoOp else if load then Pop(false) else Data(true))
            && ((forall sp: int, n: nat :: Lowest(h1, sp, n) == (if load then sp else sp - 4 * n)
                                           && Moved(h1, sp, n) == if load then sp + 4 * n else sp - 4 * n)
                <==> h1 / 0x20 % 2 == 1 && h1 / 0x80 % 4 == if load then 1 else 2)
  {
    hide Fits, DecodeWideBranch;
    assert Top(h1, 0x2000) == 7 && Field(h1, 0x400, 4) == 2 && Top(h1, 0x800) == 0x1D;
    assert Lowest(h1, 0, 1) == (if h1 / 0x80 % 4 == 1 then 0 else -4);
    assert Moved(h1, 0, 1) == (if h1 / 0x20 % 2 == 0 then 0 else if h1 / 0x80 % 4 == 1 then 4 else -4);
  }

  // ----- ARM

  /** The unconditional space: BLX, coprocessor and SIMD, barriers. */
  function DecodeUnconditional(w: nat, a: nat): (r: Insn)
    requires w < 0x1_0000_0000
    ensures Fits(r, a, 4)
  {
    hide Fits, OpFits, SignExtend, Field, Top, Direct, ArmRecord, Twice;
    var offset := 2 * SignExtend(Field(w, 1, 0x100_0000), 0x80_0000);
    if Top(w, 0x200_0000) == 0x7D then
      Direct(a, 4, Call, NoOp, a + 8, Twice(offset + Field(w, 0x100_0000, 2)), COND_AL, false, true)
    else ArmRecord(a, if Field(w, 0x100_0000, 16) in {0xC, 0xD, 0xE} then Simd else Sys, COND_AL, false)
  }

  /** The class of an instruction that is neither BX, BLX nor a branch. */
  function ClassA32(w: nat): (r: Class)
    requires w < 0x1_0000_0000
    ensures r !in {Branch, Call, Indirect}
  {
    hide Field;
    var op, load, rd := Field(w, 0x200_0000, 8), Field(w, 0x10_0000, 2) == 1, Field(w, 0x1000, 16);
    if op <= 1 then if rd == 15 && Field(w, 0x20_0000, 16) == 0xD then Return else Alu
    else if op <= 3 then
      if op == 3 && Field(w, 16, 2) == 1 then Undef
      else if load && rd == 15 then Return
      else if load then Load else Store
    else if op == 4 then
      if load && Field(w, 0x8000, 2) == 1 then Return else if load then LoadM else StoreM
    else if op == 7 && Field(w, 0x100_0000, 2) == 1 then Sys
    else Simd
  }

  /** An ARM branch or call with its condition, of which the record says that there is one. */
  function OnCondition(i: Insn, guard: nat): (r: Insn)
    requires OpFits(i) && i.op == NoOp && !i.conditional && guard <= COND_AL
    ensures OpFits(r) && r.addr == i.addr && r.width == i.width && r.target == i.target
  {
    i.(conditional := guard < COND_AL, guard := guard)
  }

  /** `decode_a32`: no operation is ever filled in, and of a condition only that there
      is one. */
  function DecodeA32(w: nat, a: nat): (r: Insn)
    requires w < 0x1_0000_0000
    ensures Fits(r, a, 4)
  {
    hide OpFits, SignExtend, Field, Direct, ArmRecord, Twice, ClassA32, DecodeUnconditional, OnCondition;
    var cond, op := Top(w, 0x1000_0000), Field(w, 0x200_0000, 8);
    if cond == 15 then DecodeUnconditional(w, a)
    else if Field(w, 16, 0x1000000) == 0x12FFF1 then
      if Field(w, 1, 16) == 14 then ArmRecord(a, Return, cond, false)
      else ArmRecord(a, Indirect, cond, true)
    else if Field(w, 16, 0x1000000) == 0x12FFF3 then ArmRecord(a, Call, cond, true)
    else if op == 5 then
      OnCondition(Direct(a, 4, if Field(w, 0x100_0000, 2) == 1 then Call else Branch, NoOp, a + 8,
                         Twice(2 * SignExtend(Field(w, 1, 0x100_0000), 0x80_0000)), COND_AL, false, false), cond)
    else ArmRecord(a, ClassA32(w), cond, false)
  }

  /** Every ARM B and BL (A8.8.18, A8.8.25): `x` words from the next but one; that it is
      conditional is recorded, and the word keeps the condition. */
  lemma ArmBranchDecodes(cond: nat, link: nat, x: int, a: nat)
    requires cond < 15 && link < 2 && -0x80_0000 <= x < 0x80_0000
    ensures var r := DecodeA32(0x1000_0000 * cond + 0xA00_0000 + 0x100_0000 * link + x % 0x100_0000, a);
            && Leads(r, a, 4, if link == 1 then Call else Branch, NoOp, COND_AL, a + 8 + 4 * x)
            && (r.conditional <==> cond < 14) && r.guard == cond && !r.switches
  {
    SignExtendOf(x, 0x80_0000);
    ArmBranchDecoded(cond, link, x, x % 0x100_0000, a);
  }

  lemma ArmBranchDecoded(cond: nat, link: nat, x: int, v: nat, a: nat)
    requires cond < 15 && link < 2 && v < 0x100_0000 && SignExtend(v, 0x80_0000) == x
    ensures var r := DecodeA32(0x1000_0000 * cond + 0xA00_0000 + 0x100_0000 * link + v, a);
            && Leads(r, a, 4, if link == 1 then Call else Branch, NoOp, COND_AL, a + 8 + 4 * x)
            && (r.conditional <==> cond < 14) && r.guard == cond && !r.switches
  {
    var w := 0x1000_0000 * cond + 0xA00_0000 + 0x100_0000 * link + v;
    ArmBranchFields(cond, link, v, w);
    DirectLeads(a, 4, if link == 1 then Call else Branch, NoOp, a + 8, Twice(2 * x), COND_AL, false, false);
    hide Direct, SignExtend, Fits, OpFits, Field, Top, DecodeUnconditional, ArmRecord;
  }

  lemma ArmBranchFields(cond: nat, link: nat, v: nat, w: nat)
    requires cond < 16 && link < 2 && v < 0x100_0000
    requires w == 0x1000_0000 * cond + 0xA00_0000 + 0x100_0000 * link + v
    ensures Top(w, 0x1000_0000) == cond && Field(w, 0x200_0000, 8) == 5 && Field(w, 0x100_0000, 2) == link
    ensures Field(w, 1, 0x100_0000) == v && Field(w, 16, 0x1000000) !in {0x12FFF1, 0x12FFF3}
    ensures Top(w, 0x200_0000) == 8 * cond + 5
  {
    var u := 0x100_0000 * link + v;
    Quotient(0x1000_0000, cond, 0xA00_0000 + u, w);
    Quotient(0x200_0000, 8 * cond + 5, u, w);
    Quotient(8, cond, 5, 8 * cond + 5);
    Quotient(0x100_0000, 16 * cond + 10 + link, v, w);
    Quotient(2, 8 * cond + 5, link, 16 * cond + 10 + link);
    Quotient(16, 0x100_0000 * cond + 0xA0_0000 + 0x10_0000 * link + v / 16, v % 16, w);
    Quotient(0x100_0000, cond, 0xA0_0000 + 0x10_0000 * link + v / 16, w / 16);
  }

  /** Every ARM BLX to an immediate (A8.8.25): a halfword further where its H bit is set,
      and into Thumb code. */
  lemma ArmExchangeDecodes(half: nat, x: int, a: nat)
    requires half < 2 && -0x80_0000 <= x < 0x80_0000
    ensures var r := DecodeA32(0xFA00_0000 + 0x100_0000 * half + x % 0x100_0000, a);
            Leads(r, a, 4, Call, NoOp, COND_AL, a + 8 + 4 * x + 2 * half) && !r.conditional && r.switches
  {
    SignExtendOf(x, 0x80_0000);
    ArmExchangeDecoded(half, x, x % 0x100_0000, a);
  }

  lemma ArmExchangeDecoded(half: nat, x: int, v: nat, a: nat)
    requires half < 2 && v < 0x100_0000 && SignExtend(v, 0x80_0000) == x
    ensures var r := DecodeA32(0xFA00_0000 + 0x100_0000 * half + v, a);
            Leads(r, a, 4, Call, NoOp, COND_AL, a + 8 + 4 * x + 2 * half) && !r.conditional && r.switches
  {
    var w := 0xFA00_0000 + 0x100_0000 * half + v;
    ArmBranchFields(15, half, v, w);
    DirectLeads(a, 4, Call, NoOp, a + 8, Twice(2 * x + half), COND_AL, false, true);
    hide Direct, SignExtend, Fits, OpFits, Field, Top, ArmRecord;
  }

  /** Of ARM words these move control and no others. */
  lemma MovesControlArm(w: nat, a: nat)
    requires w < 0x1_0000_0000
    ensures var cls, cond := DecodeA32(w, a).cls, w / 0x1000_0000;
            var exchange := w / 16 % 0x100_0000;
            && (cls == Call <==> if cond == 15 then w / 0x200_0000 == 0x7D
                                 else exchange == 0x12_FFF3 || w / 0x100_0000 % 16 == 11)
            && (cls == Branch <==> cond < 15 && w / 0x100_0000 % 16 == 10)
            && (cls == Indirect <==> cond < 15 && exchange == 0x12_FFF1 && w % 16 != 14)
            && (cls == Return <==> cond < 15 && ((exchange == 0x12_FFF1 && w % 16 == 14) || ReturnsByLoad(w)))
  {
    ArmPages(w);
    hide Fits, OpFits, Direct, SignExtend, Field, Top;
    if Field(w, 16, 0x1000000) in {0x12FFF1, 0x12FFF3} {
      ExchangeIsNoMov(w);
    }
  }

  /** The others are classed by bits 27 to 25, and loads told from stores by bit 20. */
  lemma DataClassesArm(w: nat, a: nat)
    requires w < 0xF000_0000 && DecodeA32(w, a).cls !in {Branch, Call, Return, Indirect}
    ensures var cls, kind, load := DecodeA32(w, a).cls, w / 0x200_0000 % 8, w / 0x10_0000 % 2 == 1;
            && (cls == Alu <==> kind in {0, 1}) && (cls == Undef <==> kind == 3 && w / 16 % 2 == 1)
            && (cls == Load <==> (kind == 2 || (kind == 3 && w / 16 % 2 == 0)) && load)
            && (cls == Store <==> (kind == 2 || (kind == 3 && w / 16 % 2 == 0)) && !load)
            && (cls == LoadM <==> kind == 4 && load) && (cls == StoreM <==> kind == 4 && !load)
            && (cls == Sys <==> kind == 7 && w / 0x100_0000 % 2 == 1)
            && (cls == Simd <==> kind == 6 || (kind == 7 && w / 0x100_0000 % 2 == 0))
  {
    ArmPages(w);
    assert Field(w, 0x100_0000, 2) == w / 0x100_0000 % 2;
    hide Fits, OpFits, Direct, SignExtend, Field, Top;
  }

  /** MOV to the PC, a load of the PC, a load multiple with it. */
  predicate ReturnsByLoad(w: nat) {
    var kind, load, rd := w / 0x200_0000 % 8, w / 0x10_0000 % 2 == 1, w / 0x1000 % 16;
    || (kind in {0, 1} && w / 0x20_0000 % 16 == 13 && rd == 15)
    || (kind == 2 && load && rd == 15) || (kind == 3 && w / 16 % 2 == 0 && load && rd == 15)
    || (kind == 4 && load && w / 0x8000 % 2 == 1)
  }

  lemma ArmPages(w: nat)
    requires w < 0x1_0000_0000
    ensures Top(w, 0x1000_0000) == w / 0x1000_0000 && Top(w, 0x200_0000) == w / 0x200_0000
    ensures Field(w, 0x200_0000, 8) == w / 0x200_0000 % 8 && Field(w, 0x10_0000, 2) == w / 0x10_0000 % 2
    ensures Field(w, 0x1000, 16) == w / 0x1000 % 16 && Field(w, 0x20_0000, 16) == w / 0x20_0000 % 16
    ensures Field(w, 16, 2) == w / 16 % 2 && Field(w, 0x8000, 2) == w / 0x8000 % 2 && Field(w, 1, 16) == w % 16
    ensures Field(w, 16, 0x1000000) == w / 16 % 0x1000000
    ensures Field(w, 0x200_0000, 8) == 5 <==> w / 0x100_0000 % 16 in {10, 11}
    ensures Field(w, 0x200_0000, 8) == 5 ==> (Field(w, 0x100_0000, 2) == 1 <==> w / 0x100_0000 % 16 == 11)
    ensures Field(w, 16, 0x1000000) in {0x12FFF1, 0x12FFF3} ==> Field(w, 0x200_0000, 8) == 0 && w / 0x100_0000 % 16 == 1
  {
    var u := w / 0x100_0000;
    assert w / 0x200_0000 == u / 2;
    Halved(u);
    if w / 16 % 0x1000000 in {0x12FFF1, 0x12FFF3} {
      var h := w / 16 / 0x1000000;
      Quotient(0x100_0000, 16 * h + 1, w % 0x100_0000, w);
      Quotient(16, h, 1, u);
    }
  }

  lemma Halved(u: nat)
    ensures u / 2 % 8 == u % 16 / 2 && u % 16 % 2 == u % 2
  {
    var e, x := u / 16, u % 16;
    Quotient(2, 8 * e + x / 2, x % 2, u);
    Quotient(8, e, x / 2, u / 2);
  }

  /** ARM BX and BLX through a register. */
  lemma ArmRegisterDecodes(cond: nat, link: nat, rm: nat, a: nat)
    requires cond < 15 && link < 2 && rm < 16
    ensures var r := DecodeA32(0x1000_0000 * cond + 0x12F_FF10 + 0x20 * link + rm, a);
            && r.cls == (if link == 1 then Call else if rm == 14 then Return else Indirect)
            && r.op == NoOp && r.target.None? && (r.conditional <==> cond < 14) && r.guard == cond
  {
    var w := 0x1000_0000 * cond + 0x12F_FF10 + 0x20 * link + rm;
    Quotient(0x1000_0000, cond, 0x12F_FF10 + 0x20 * link + rm, w);
    Quotient(16, 0x100_0000 * cond + 0x12_FFF1 + 2 * link, rm, w);
    Quotient(0x100_0000, cond, 0x12_FFF1 + 2 * link, w / 16);
    Quotient(0x200_0000, 8 * cond, 0x12F_FF10 + 0x20 * link + rm, w);
    hide Direct, SignExtend, Fits, OpFits, DecodeUnconditional, ClassA32;
  }

  /** Operand 2 of an ARM instruction whose registers hold `regs`: an immediate, or a
      register shifted by an amount in the word or in a register. */
  function Operand2(w: nat, regs: nat -> word, carry: nat): int {
    var v, kind := regs(Field(w, 1, 16)), Field(w, 0x20, 4);
    if Field(w, 0x200_0000, 2) == 1 then RotateRight(Field(w, 1, 256), 2 * Field(w, 0x100, 16))
    else if Field(w, 0x10, 2) == 1 then Shifted(kind, v, regs(Field(w, 0x100, 16)) % 256)
    else
      var n := Field(w, 0x80, 32);
      if n == 0 && kind == 3 then v / 2 + 0x8000_0000 * carry
      else Shifted(kind, v, if n == 0 && kind != 0 then 32 else n)
  }

  /** LSL, LSR, ASR and ROR. */
  function Shifted(kind: nat, v: word, n: nat): int {
    if kind == 0 then v * Pow2(n) % 0x1_0000_0000
    else if kind == 1 then v / Pow2(n)
    else if kind == 2 then (if v < 0x8000_0000 then v else v - 0x1_0000_0000) / Pow2(n) % 0x1_0000_0000
    else RotateRight(v, n % 32)
  }

  lemma ShiftedZero(kind: nat, n: nat)
    ensures Shifted(kind, 0, n) == 0
  {
    hide Pow2;
    ZeroOver(Pow2(n));
    ZeroOver(Pow2(n % 32));
  }

  lemma ZeroOver(d: nat)
    requires d > 0
    ensures 0 / d == 0 && 0 % d == 0 && 0 * d == 0
  {
  }

  lemma ShiftedOne(kind: nat, n: nat)
    requires 1 <= n <= 32 && (kind in {1, 2} || n < 32)
    ensures Shifted(kind, 1, n) != 1
  {
    hide Pow2, RotateRight;
    Pow2Doubles(n);
    if kind == 0 {
      assert 1 * Pow2(n) == Pow2(n);
    } else if kind in {1, 2} {
      assert 1 / Pow2(n) == 0 by { SmallQuotient(1, Pow2(n)); }
    } else {
      RotatedOne(n);
    }
  }

  lemma RotatedOne(n: nat)
    requires 1 <= n < 32
    ensures RotateRight(1, n) == Pow2(32 - n) != 1
  {
    hide Pow2;
    Pow2Doubles(n);
    Pow2Doubles(32 - n);
    assert 1 / Pow2(n) == 0 && 1 % Pow2(n) == 1 by { SmallQuotient(1, Pow2(n)); }
  }

  lemma Pow2Doubles(n: nat)
    requires 1 <= n
    ensures Pow2(n) >= 2 && (n < 32 ==> Pow2(n) < 0x1_0000_0000)
  {
    Pow2Grows(0, n - 1);
    if n < 32 {
      Pow2Grows(n - 1, 30);
      assert Pow2(30) == 0x4000_0000 by { Pow2Of30(); }
    }
  }

  lemma Pow2Of30()
    ensures Pow2(30) == 0x4000_0000
  {
    Pow2Values();
    assert Pow2(20) == 0x10_0000;
    assert Pow2(25) == 0x200_0000;
  }

  /** The fields of the low twelve bits make them up. */
  lemma LowTwelve(w: nat)
    ensures w % 0x1000
         == Field(w, 1, 16) + 0x10 * Field(w, 0x10, 2) + 0x20 * Field(w, 0x20, 4) + 0x80 * Field(w, 0x80, 32)
  {
    var t, x := w / 0x10, w % 0x10;
    var t1, b := t / 2, t % 2;
    var t3, k := t1 / 4, t1 % 4;
    var h, n := t3 / 32, t3 % 32;
    FieldsFrom(w, t, x, t1, b, t3, k, h, n);
  }

  lemma FieldsFrom(w: nat, t: nat, x: nat, t1: nat, b: nat, t3: nat, k: nat, h: nat, n: nat)
    requires w == 0x10 * t + x && x < 0x10 && t == 2 * t1 + b && b < 2
    requires t1 == 4 * t3 + k && k < 4 && t3 == 32 * h + n && n < 32
    ensures Field(w, 1, 16) == x && Field(w, 0x10, 2) == b && Field(w, 0x20, 4) == k && Field(w, 0x80, 32) == n
    ensures w % 0x1000 == x + 0x10 * b + 0x20 * k + 0x80 * n
  {
    Quotient(1, w, 0, w);
    Quotient(16, t, x, w);
    Quotient(2, t1, b, t);
    Quotient(0x20, t1, 0x10 * b + x, w);
    Quotient(4, t3, k, t1);
    Quotient(0x80, t3, 0x20 * k + 0x10 * b + x, w);
    Quotient(32, h, n, t3);
    Quotient(0x1000, h, 0x80 * n + 0x20 * k + 0x10 * b + x, w);
  }

  /** The operand is lr, not shifted. */
  predicate PlainLr(w: nat) {
    && Field(w, 0x200_0000, 2) == 0 && Field(w, 1, 16) == 14
    && Field(w, 0x10, 2) == 0 && Field(w, 0x20, 4) == 0 && Field(w, 0x80, 32) == 0
  }

  lemma LrOperand(w: nat, regs: nat -> word, carry: nat)
    requires PlainLr(w)
    ensures Operand2(w, regs, carry) == regs(14)
  {
    hide Field;
    assert Pow2(0) == 1;
  }

  /** Any other operand differs from lr for some contents of the registers. */
  lemma OtherOperand(w: nat) returns (regs: nat -> word)
    requires !PlainLr(w)
    ensures Operand2(w, regs, 0) != regs(14)
  {
    hide Field, Shifted, RotateRight;
    var kind, n := Field(w, 0x20, 4), Field(w, 0x80, 32);
    if Field(w, 0x200_0000, 2) == 1 {
      regs := _ => if Operand2(w, _ => 0, 0) == 0 then 1 else 0;
    } else if Field(w, 1, 16) != 14 {
      regs := k => if k == 14 then 1 else 0;
      ShiftedZero(kind, regs(Field(w, 0x100, 16)) % 256);
      ShiftedZero(kind, if n == 0 && kind != 0 then 32 else n);
    } else {
      regs := _ => 1;
      if Field(w, 0x10, 2) == 1 {
        ShiftedOne(kind, 1);
      } else if n != 0 || kind in {1, 2} {
        ShiftedOne(kind, if n == 0 then 32 else n);
      }
    }
  }

  lemma MovIsReturn(w: nat, a: nat)
    requires w < 0xF000_0000 && Field(w, 0x200_0000, 8) <= 1
    requires Field(w, 0x1000, 16) == 15 && Field(w, 0x20_0000, 16) == 0xD
    ensures DecodeA32(w, a).cls == Return
  {
    assert Top(w, 0x1000_0000) < 15;
    hide Field, Top, Direct, OnCondition, DecodeUnconditional, Fits, OpFits;
    if Field(w, 16, 0x1000000) in {0x12FFF1, 0x12FFF3} {
      ExchangeIsNoMov(w);
    }
  }

  /** BX and BLX have another opcode. */
  lemma ExchangeIsNoMov(w: nat)
    requires Field(w, 16, 0x1000000) in {0x12FFF1, 0x12FFF3}
    ensures Field(w, 0x20_0000, 16) == 9
  {
    var h, x := w / 16 / 0x1000000, w % 16;
    var c := if Field(w, 16, 0x1000000) == 0x12FFF1 then 0xFFF10 else 0xFFF30;
    assert w == 0x1000_0000 * h + 0x120_0000 + c + x;
    Quotient(0x20_0000, 128 * h + 9, c + x, w);
    Quotient(16, 8 * h, 9, 128 * h + 9);
  }

  /** A data-processing MOV to the PC is recorded as a return. It goes where lr points,
      whatever the registers hold, exactly when its operand is lr, not shifted. */
  lemma MovPcIff(w: nat, a: nat)
    requires w < 0xF000_0000 && Field(w, 0x200_0000, 8) <= 1
    requires Field(w, 0x1000, 16) == 15 && Field(w, 0x20_0000, 16) == 0xD
    ensures DecodeA32(w, a).cls == Return
    ensures (forall regs, carry: nat :: carry < 2 ==> Operand2(w, regs, carry) == regs(14))
       <==> Field(w, 0x200_0000, 2) == 0 && w % 0x1000 == 14
  {
    hide Field, Operand2;
    MovIsReturn(w, a);
    LowTwelve(w);
    assert PlainLr(w) <==> Field(w, 0x200_0000, 2) == 0 && w % 0x1000 == 14;
    if PlainLr(w) {
      forall regs, carry: nat | carry < 2 ensures Operand2(w, regs, carry) == regs(14) {
        LrOperand(w, regs, carry);
      }
    } else {
      var regs := OtherOperand(w);
    }
  }

  // ----- the entry point

  function Half(code: seq<byte>, off: nat): (r: nat)
    requires off + 2 <= |code|
    ensures r < 0x10000
  {
    code[off] as int + 0x100 * (code[off + 1] as int)
  }

  /** `arm_decode`. */
  function ArmDecode(code: seq<byte>, base: nat, a: nat, m: Mode, data: nat -> DataForm): Option<Insn> {
    if a < base then None else
      var off := a - base;
      if m == A32 then
        if off + 4 > |code| then None
        else Some(DecodeA32(Half(code, off) + 0x10000 * Half(code, off + 2), a))
      else if off + 2 > |code| then None
      else
        var h1 := Half(code, off);
        if h1 < 0xE800 then Some(DecodeT16(h1, a, data))
        else if off + 4 > |code| then None
        else Some(DecodeT32(h1, Half(code, off + 2), a, data))
  }

  /** An ARM instruction is the word at its address, low byte first. */
  lemma ArmLaidOut(code: seq<byte>, base: nat, a: nat, w: nat, data: nat -> DataForm)
    requires w < 0x1_0000_0000 && base <= a && a - base + 4 <= |code|
    requires forall j :: 0 <= j < 4 ==> code[a - base + j] as int == ByteOf(w, j)
    ensures ImageOf(code, base, data).decode(a, A32) == Some(DecodeA32(w, a))
  {
    hide DecodeA32;
    var c := code[a - base..];
    assert ByteOf(w, 0) + 0x100 * ByteOf(w, 1) + 0x1_0000 * (ByteOf(w, 2) + 0x100 * ByteOf(w, 3)) == w by {
      BytesMakeUp(w);
    }
  }

  /** Byte `j` of a value, counted from the low end. */
  function ByteOf(w: nat, j: nat): nat {
    if j == 0 then w % 0x100 else ByteOf(w / 0x100, j - 1)
  }

  lemma BytesMakeUp(w: nat)
    requires w < 0x1_0000_0000
    ensures ByteOf(w, 0) + 0x100 * ByteOf(w, 1) + 0x1_0000 * (ByteOf(w, 2) + 0x100 * ByteOf(w, 3)) == w
  {
    var x := w / 0x100;
    var y := x / 0x100;
    assert ByteOf(w, 1) == ByteOf(x, 0) && ByteOf(w, 2) == ByteOf(x, 1) == ByteOf(y, 0);
    assert ByteOf(w, 3) == ByteOf(x, 2) == ByteOf(y, 1) == ByteOf(y / 0x100, 0);
  }

  /** A Thumb instruction is one halfword, or two with the first one first; those from
      0xE800 on are of two. A last halfword that lacks its second is none. */
  lemma ThumbLaidOut(code: seq<byte>, base: nat, a: nat, h1: nat, h2: nat, data: nat -> DataForm)
    requires h1 < 0x10000 && h2 < 0x10000 && base <= a && a - base + 2 <= |code|
    requires forall j :: 0 <= j < 2 ==> code[a - base + j] as int == ByteOf(h1, j)
    ensures h1 < 0xE800 ==> ImageOf(code, base, data).decode(a, T32) == Some(DecodeT16(h1, a, data))
    ensures h1 >= 0xE800 && a - base + 4 <= |code|
            && (forall j :: 0 <= j < 2 ==> code[a - base + 2 + j] as int == ByteOf(h2, j)) ==>
              ImageOf(code, base, data).decode(a, T32) == Some(DecodeT32(h1, h2, a, data))
    ensures h1 >= 0xE800 && a - base + 4 > |code| ==> ImageOf(code, base, data).decode(a, T32).None?
  {
    hide DecodeT16, DecodeT32;
    HalfMakesUp(h1);
    HalfMakesUp(h2);
    var o := a - base;
    assert Half(code, o) == h1;
    if o + 4 <= |code| && forall j :: 0 <= j < 2 ==> code[o + 2 + j] as int == ByteOf(h2, j) {
      assert code[o + 2 + 0] as int == ByteOf(h2, 0) && code[o + 2 + 1] as int == ByteOf(h2, 1);
      assert Half(code, o + 2) == h2;
    }
  }

  lemma HalfMakesUp(h: nat)
    requires h < 0x10000
    ensures ByteOf(h, 0) + 0x100 * ByteOf(h, 1) == h
  {
    assert ByteOf(h, 1) == ByteOf(h / 0x100, 0);
  }

  /** The image a code segment makes. */
  function ImageOf(code: seq<byte>, base: nat, data: nat -> DataForm): Image {
    Image(base, |code|, (a: nat, m: Mode) => ArmDecode(code, base, a, m, data))
  }

  /** The segment is as long as its bytes. */
  lemma ImageExtent(code: seq<byte>, base: nat, data: nat -> DataForm, a: nat)
    ensures ImageOf(code, base, data).InSegment(a) <==> base <= a < base + |code|
  {
  }

  /** arm_decode meets the contract discovery and emission rest on: it stays inside the
      segment, makes progress, and gives each class an operation that fits it. */
  lemma DecoderMeetsContract(code: seq<byte>, base: nat, data: nat -> DataForm)
    requires base % 2 == 0
    ensures ImageOf(code, base, data).Decodes() && Aligned(ImageOf(code, base, data))
  {
    hide DecodeT16, DecodeT32, DecodeA32, OpFits;
    var img := ImageOf(code, base, data);
    forall a: nat, m: Mode | img.decode(a, m).Some?
      ensures var i := img.decode(a, m).value;
              Fits(i, a, i.width) && (i.width == 2 || i.width == 4) && base <= a && a + i.width <= base + |code|
    {
    }
  }
}
