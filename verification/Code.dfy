/** Decoded instructions, the image they come from, and the flow relation the
    emitter follows inside one function. */
module Code {

  datatype Option<+T> = None | Some(value: T)

  datatype Mode = A32 | T32

  datatype Class =
    | Unknown | Undef | Alu | Load | Store | LoadM | StoreM | Branch | Call | Return | Indirect | Simd | Sys | Nop

  /** What emit_insn switches on. `Data` stands for every operation it turns into
      straight-line C; `translated` is false where it finds an operand missing. `mask` is
      `it_mask`, which says how many instructions an IT governs and which nothing reads. */
  datatype Op = NoOp | B | Cbz | Cbnz | Bx | Blx | It(mask: nat) | Pop(pc: bool) | Data(translated: bool)

  const COND_AL: nat := 14

  /** `arm_insn`, without the operand fields that only straight-line code reads. `guard`
      is the condition in the top nibble of an ARM word: `raw` has it, nothing reads it. */
  datatype Insn = Insn(
    addr: nat, width: nat, cls: Class, target: Option<nat>, conditional: bool, switches: bool,
    op: Op, cond: nat, hasReg: bool, writesPc: bool, guard: nat)

  /** An executable segment and the decoder over it. */
  datatype Image = Image(base: nat, len: nat, decode: (nat, Mode) -> Option<Insn>)
  {
    predicate InSegment(a: nat) {
      base <= a < base + len
    }

    /** What arm_decode promises: the instruction is the one at the address asked
        for, two or four bytes wide and wholly inside the segment; a branch has a
        target; only Thumb branches and IT carry a condition code; the operation fits
        the class. An ARM record has no operation and, when the instruction is
        conditional, says so without saying on what condition but in its raw word. */
    ghost predicate Decodes() {
      forall a: nat, m: Mode :: decode(a, m).Some? ==>
        var i := decode(a, m).value;
        && i.addr == a && (i.width == 2 || i.width == 4)
        && base <= a && a + i.width <= base + len
        && OpFits(i)
    }
  }

  /** The segment is halfword aligned and so is everything the decoder points at. */
  ghost predicate Aligned(img: Image) {
    && img.base % 2 == 0
    && forall a: nat, m: Mode :: a % 2 == 0 && img.decode(a, m).Some? ==>
         img.decode(a, m).value.target.Some? ==> img.decode(a, m).value.target.value % 2 == 0
  }

  predicate OpFits(i: Insn) {
    && (i.cls == Branch ==> i.target.Some? && i.op in {B, Cbz, Cbnz, NoOp})
    && (i.cls == Call ==> i.op in {Blx, NoOp})
    && (i.cls == Return ==> i.op in {Bx, Pop(true), NoOp})
    && (i.cls == Indirect ==> i.op in {Bx, NoOp})
    && (i.op in {B, Cbz, Cbnz} ==> i.cls == Branch)
    && (i.op == Bx ==> i.cls in {Return, Indirect} && i.hasReg)
    && (i.op == Blx ==> i.cls == Call && i.hasReg && i.target.None?)
    && (i.op == Pop(true) ==> i.cls == Return)
    && (i.op in {Cbz, Cbnz} ==> i.conditional)
    && (i.conditional && i.cls != Branch ==> i.op == NoOp)
    && (i.cond != COND_AL ==> i.op == B || i.op.It?)
    && (i.op == B && !i.conditional ==> i.cond == COND_AL)
    && (i.op == NoOp && i.conditional ==> i.guard < COND_AL)
    && (i.writesPc ==> i.cls !in {Branch, Call, Return, Indirect})
  }

  /** `vf_func`, as far as the emitter uses it. */
  datatype Func = Func(addr: nat, mode: Mode, end: nat)
  {
    /** The extent when it is worth anything, else a generous range. */
    function Bound(): (r: nat)
      ensures r > addr
    {
      if end > addr + 16 then end else addr + 8192
    }
  }

  /** `a` holds an instruction collect can take. Address 0 is the empty marker of
      the visited table and is never taken. */
  predicate Takes(img: Image, fn: Func, a: nat) {
    a != 0 && img.InSegment(a) && a < fn.Bound() && img.decode(a, fn.mode).Some?
  }

  /** A recorded end that is more than 16 bytes off bounds what is taken; else the first 8192
      bytes are taken for the function. */
  lemma TakesWithin(img: Image, fn: Func, a: nat)
    ensures fn.end > fn.addr + 16 ==>
              (Takes(img, fn, a) <==> a != 0 && img.InSegment(a) && a < fn.end && img.decode(a, fn.mode).Some?)
    ensures fn.end <= fn.addr + 16 ==>
              (Takes(img, fn, a) <==> a != 0 && img.InSegment(a) && a < fn.addr + 8192 && img.decode(a, fn.mode).Some?)
  {
  }

  predicate Falls(i: Insn) {
    i.cls != Return && !(i.cls == Branch && !i.conditional)
  }

  predicate LocalBranch(fn: Func, i: Insn) {
    i.cls == Branch && i.target.Some? && fn.addr <= i.target.value < fn.Bound()
  }

  /** The same extent decides which branches stay in the function. */
  lemma BranchesWithin(fn: Func, i: Insn)
    ensures LocalBranch(fn, i) <==>
            i.cls == Branch && i.target.Some? && fn.addr <= i.target.value
            && i.target.value < if fn.end > fn.addr + 16 then fn.end else fn.addr + 8192
  {
  }

  /** Flow from `a` to `b`: fall-through, or a branch inside the bound. */
  predicate Edge(img: Image, fn: Func, a: nat, b: nat) {
    && Takes(img, fn, a)
    && var i := img.decode(a, fn.mode).value;
       (Falls(i) && b == a + i.width) || (LocalBranch(fn, i) && b == i.target.value)
  }

  /** A flow path from the function's entry. */
  ghost predicate Path(img: Image, fn: Func, p: seq<nat>) {
    && p != [] && p[0] == fn.addr
    && forall i :: 0 <= i < |p| - 1 ==> Edge(img, fn, p[i], p[i + 1])
  }

  ghost predicate Reaches(img: Image, fn: Func, a: nat) {
    exists p :: Path(img, fn, p) && p[|p| - 1] == a
  }

  lemma ReachesEntry(img: Image, fn: Func)
    ensures Reaches(img, fn, fn.addr)
  {
    assert Path(img, fn, [fn.addr]);
  }

  lemma ReachesNext(img: Image, fn: Func, a: nat, b: nat)
    requires Reaches(img, fn, a) && Edge(img, fn, a, b)
    ensures Reaches(img, fn, b)
  {
    var p :| Path(img, fn, p) && p[|p| - 1] == a;
    var q := p + [b];
    forall i | 0 <= i < |q| - 1 ensures Edge(img, fn, q[i], q[i + 1]) {
      if i < |p| - 1 {
        assert Edge(img, fn, p[i], p[i + 1]);
      }
    }
    assert Path(img, fn, q) && q[|q| - 1] == b;
  }

  /** Flow never goes below the entry. */
  lemma ReachesUpwards(img: Image, fn: Func, a: nat)
    requires Reaches(img, fn, a)
    ensures a >= fn.addr
  {
    var p :| Path(img, fn, p) && p[|p| - 1] == a;
    PathUpwards(img, fn, p);
  }

  lemma {:induction false} PathUpwards(img: Image, fn: Func, p: seq<nat>)
    requires Path(img, fn, p)
    ensures p[|p| - 1] >= fn.addr
    decreases |p|
  {
    if |p| > 1 {
      assert Edge(img, fn, p[|p| - 2], p[|p| - 1]);
      var q := p[..|p| - 1];
      forall i | 0 <= i < |q| - 1 ensures Edge(img, fn, q[i], q[i + 1]) {
        assert Edge(img, fn, p[i], p[i + 1]);
      }
      PathUpwards(img, fn, q);
    }
  }

  /** Every taken address on a path out of a closed set that holds the entry is in the set. */
  lemma {:induction false} ClosedHoldsPaths(img: Image, fn: Func, set_: set<nat>, p: seq<nat>)
    requires Path(img, fn, p)
    requires Takes(img, fn, fn.addr) ==> fn.addr in set_
    requires forall a, b :: a in set_ && Edge(img, fn, a, b) && Takes(img, fn, b) ==> b in set_
    requires Takes(img, fn, p[|p| - 1])
    ensures p[|p| - 1] in set_
    decreases |p|
  {
    if |p| > 1 {
      var q := p[..|p| - 1];
      assert Edge(img, fn, p[|p| - 2], p[|p| - 1]);
      forall i | 0 <= i < |q| - 1 ensures Edge(img, fn, q[i], q[i + 1]) {
        assert Edge(img, fn, p[i], p[i + 1]);
      }
      ClosedHoldsPaths(img, fn, set_, q);
    }
  }
}
