/** The statement printed for an instruction, against the instruction: exactly where
    the one does what the other does. */
module Simulate {
  import opened Code
  import opened Emit
  import opened Dispatch

  /** Where a call or jump leads: a function of the module, an import, neither. */
  datatype Callee = Function(f: nat) | Import(f: nat) | Nowhere(a: nat)

  /** The machine both sides run on: what an instruction's own work does, which condition
      codes hold, whether the register a branch tests is zero, what is in the register a
      transfer names, what a call leaves in lr, what a firmware function does. */
  datatype Machine<!S(!new)> = Machine(
    exec: (Insn, S) -> S, cond: (nat, S) -> bool, zero: (Insn, S) -> bool, reg: (Insn, S) -> nat,
    link: (Insn, S) -> S, hle: (nat, S) -> S)
  {
    /** Conditions 14 and 15 are "always" (vita_cond). */
    ghost predicate Sane() {
      forall s :: cond(14, s) && cond(15, s)
    }
  }

  datatype Exit = ToCaller | To(callee: Callee)

  /** What one instruction does to control: go on, jump inside the body, call and go on,
      leave the function, halt in a trap. */
  datatype Effect<S> =
    | Next(s: S) | Jump(l: nat, s: S) | Enter(callee: Callee, s: S) | Leave(exit: Exit, s: S) | Stop(s: S)

  // ----- when an instruction is executed

  /** How many instructions an IT governs. */
  function Governed(mask: nat): (n: nat)
    ensures 1 <= n <= 4
  {
    if mask % 2 == 1 then 4 else if mask % 4 == 2 then 3 else if mask % 8 == 4 then 2 else 1
  }

  /** The condition an IT puts on the instruction `j` places behind the next: its own, with
      the low bit taken from the mask after the first. */
  function ItCondition(cond: nat, mask: nat, j: nat): nat {
    if j == 0 then cond
    else cond / 2 * 2 + (if j == 1 then mask / 8 else if j == 2 then mask / 4 else mask / 2) % 2
  }

  /** The mask bit of a further instruction (A8.8.54 of ARM DDI 0406C): the condition's low bit
      for one of the same condition (T), its complement for one of the opposite (E). */
  function MaskBit(cond: nat, same: bool): nat {
    if same then cond % 2 else 1 - cond % 2
  }

  /** IT as it is written, with up to three further instructions: their bits and a one. */
  function EncodeMask(cond: nat, more: nat, t1: bool, t2: bool, t3: bool): nat {
    if more == 0 then 8
    else if more == 1 then 8 * MaskBit(cond, t1) + 4
    else if more == 2 then 8 * MaskBit(cond, t1) + 4 * MaskBit(cond, t2) + 2
    else 8 * MaskBit(cond, t1) + 4 * MaskBit(cond, t2) + 2 * MaskBit(cond, t3) + 1
  }

  /** It governs as many instructions as are written, on the conditions that are written. */
  lemma ItGoverns(cond: nat, more: nat, t1: bool, t2: bool, t3: bool, j: nat)
    requires j <= more <= 3
    ensures var mask := EncodeMask(cond, more, t1, t2, t3);
            var same := if j == 0 then true else if j == 1 then t1 else if j == 2 then t2 else t3;
            && 0 < mask < 16 && Governed(mask) == more + 1
            && ItCondition(cond, mask, j) == if same then cond else cond / 2 * 2 + (1 - cond % 2)
  {
    var mask := EncodeMask(cond, more, t1, t2, t3);
    var b1, b2, b3 := MaskBit(cond, t1), MaskBit(cond, t2), MaskBit(cond, t3);
    if more == 1 {
      MaskOf(b1, 1, 0, mask);
    } else if more == 2 {
      MaskOf(b1, b2, 1, mask);
    } else if more == 3 {
      MaskOf(b1, b2, 2 + b3, mask);
    }
    hide EncodeMask, Governed;
    assert cond == cond / 2 * 2 + cond % 2;
  }

  /** The bits of a mask: the first two, and whether there is a third and what it is. */
  lemma MaskOf(b1: nat, b2: nat, rest: nat, mask: nat)
    requires b1 < 2 && b2 < 2
    requires (rest == 0 && b2 == 1 && mask == 8 * b1 + 4) || (rest == 1 && mask == 8 * b1 + 4 * b2 + 2)
             || (2 <= rest < 4 && mask == 8 * b1 + 4 * b2 + 2 * (rest - 2) + 1)
    ensures 0 < mask < 16 && Governed(mask) == (if rest == 0 then 2 else if rest == 1 then 3 else 4)
    ensures mask / 8 % 2 == b1 && (rest > 0 ==> mask / 4 % 2 == b2) && (rest > 1 ==> mask / 2 % 2 == rest - 2)
  {
  }

  /** `a` is `j` instructions after `c`. */
  predicate Follows(img: Image, mode: Mode, c: nat, j: nat, a: nat)
    decreases j
  {
    if j == 0 then a == c
    else img.decode(c, mode).Some? && Follows(img, mode, c + img.decode(c, mode).value.width, j - 1, a)
  }

  /** The IT at `b` of the function puts condition `c` on what stands at `a`, its `j`-th. */
  ghost predicate Governs(img: Image, fn: Func, b: nat, j: nat, a: nat, c: nat) {
    && Takes(img, fn, b) && Reaches(img, fn, b)
    && var it := img.decode(b, fn.mode).value;
       && it.op.It? && j < Governed(it.op.mask) && c == ItCondition(it.cond, it.op.mask, j)
       && Follows(img, fn.mode, b + it.width, j, a)
  }

  /** An IT of the function puts condition `c` on what stands at `a`. No record says so. */
  ghost predicate UnderIt(img: Image, fn: Func, a: nat, c: nat) {
    exists b, j :: Governs(img, fn, b, j, a, c)
  }

  /** The condition an ARM word has in its top nibble, and of which the record says only
      that there is one. */
  predicate ArmGuarded(i: Insn) {
    i.conditional && i.op == NoOp
  }

  /** The condition, if any, that the operation itself tests. */
  predicate OwnTest<S(!new)>(m: Machine<S>, i: Insn, s: S) {
    match i.op
    case B => m.cond(i.cond, s)
    case Cbz => m.zero(i, s)
    case Cbnz => !m.zero(i, s)
    case _ => true
  }

  /** The instruction is not skipped. */
  ghost predicate Executed<S(!new)>(ctx: Context, fn: Func, m: Machine<S>, i: Insn, s: S) {
    && (forall c :: UnderIt(ctx.img, fn, i.addr, c) ==> m.cond(c, s))
    && (ArmGuarded(i) ==> m.cond(i.guard, s))
    && OwnTest(m, i, s)
  }

  // ----- what an instruction does

  /** The target is inside the function: a branch to it stays local. */
  predicate Local(img: Image, fn: Func, t: nat) {
    fn.addr <= t && Takes(img, fn, t)
  }

  predicate TargetsImport(ctx: Context, i: Insn) {
    i.cls in {Call, Branch} && i.target.Some? && ClearThumb(i.target.value) in ctx.stubs
  }

  /** Where the immediate target of a branch or call leads. */
  function Aimed(ctx: Context, t: nat): Callee {
    if ClearThumb(t) in ctx.stubs then Import(ClearThumb(t))
    else if t in ctx.funcs then Function(t)
    else Nowhere(t)
  }

  /** Where an address in a register leads. */
  function Pointed(ctx: Context, a: nat): Callee {
    match Binding(ctx.funcs, ctx.stubs, ClearThumb(a))
    case Some(sym) => CalleeOf(sym)
    case None => Nowhere(a)
  }

  function CalleeOf(sym: Symbol): Callee {
    match sym
    case Fn(f) => Function(f)
    case Imp(f) => Import(f)
  }

  /** An address means the same in a register and in an instruction. */
  lemma PointedIsAimed(ctx: Context, a: nat)
    requires a % 2 == 0
    ensures Pointed(ctx, a) == Aimed(ctx, a)
    ensures Pointed(ctx, a + 1) == if Bound(ctx, a) then Aimed(ctx, a) else Nowhere(a + 1)
  {
  }

  /** One step of the decoded records: a branch stays local or leaves, a call sets lr and
      comes back, a return goes back to the caller whatever form it has. */
  ghost function Step<S(!new)>(ctx: Context, fn: Func, m: Machine<S>, i: Insn, s: S): (r: Effect<S>)
    requires OpFits(i)
    ensures !r.Stop?
  {
    if !Executed(ctx, fn, m, i, s) then Next(s)
    else
      match i.cls
      case Branch =>
        if !TargetsImport(ctx, i) && Local(ctx.img, fn, i.target.value) then Jump(i.target.value, s)
        else Leave(To(Aimed(ctx, i.target.value)), s)
      case Call =>
        Enter(if i.target.Some? then Aimed(ctx, i.target.value) else Pointed(ctx, m.reg(i, s)), m.link(i, s))
      case Return => Leave(ToCaller, m.exec(i, s))
      case Indirect => Leave(To(Pointed(ctx, m.reg(i, s))), s)
      case _ => Next(m.exec(i, s))
  }

  // ----- what a statement does

  predicate Holds<S(!new)>(m: Machine<S>, test: Test, s: S) {
    match test
    case Always => true
    case Flags(c) => m.cond(c, s)
    case RegZero(i) => m.zero(i, s)
    case RegNonzero(i) => !m.zero(i, s)
  }

  /** A statement's action; a transfer through a register asks the dispatch table. */
  function Perform<S(!new)>(table: seq<Entry>, m: Machine<S>, act: Action, s: S): Effect<S> {
    match act
    case Exec(i) => Next(m.exec(i, s))
    case CallFunc(f) => Enter(Function(f), s)
    case CallImport(f) => Enter(Import(ClearThumb(f)), s)
    case CallReg(i) =>
      var to := Answer(table, ClearThumb(m.reg(i, s)));
      if to.Some? then Enter(CalleeOf(to.value), s) else Stop(s)
    case Goto(l) => Jump(l, s)
    case TailFunc(f) => Leave(To(Function(f)), s)
    case TailImport(f) => Leave(To(Import(ClearThumb(f))), s)
    case TailReg(i) =>
      var to := Answer(table, ClearThumb(m.reg(i, s)));
      if to.Some? then Leave(To(CalleeOf(to.value)), s) else Stop(s)
    case Ret => Leave(ToCaller, s)
    case PopRet(i) => Leave(ToCaller, m.exec(i, s))
    case Trap => Stop(s)
  }

  function Outcome<S(!new)>(table: seq<Entry>, m: Machine<S>, test: Test, act: Action, s: S): Effect<S> {
    if Holds(m, test, s) then Perform(table, m, act, s) else Next(s)
  }

  /** What the statement printed for an instruction does. */
  function Printed<S(!new)>(ctx: Context, table: seq<Entry>, labels: seq<nat>, m: Machine<S>, i: Insn, s: S): Effect<S>
    requires OpFits(i)
  {
    var (test, act) := Translate(i, ctx.Lookup(i, labels));
    Outcome(table, m, test, act, s)
  }

  // ----- one instruction

  /** What collect gives when it met no limit: labels exactly at the local targets. */
  ghost predicate LabelsComplete(img: Image, fn: Func, i: Insn, labels: seq<nat>) {
    i.cls == Branch && i.target.Some? ==> (i.target.value in labels <==> Local(img, fn, i.target.value))
  }

  /** What emit_insn has no translation for: a write of the PC that is no branch, an
      operation that was not decoded and whose class says neither return nor call of a
      known function, a branch to an address that is neither local nor a function. */
  predicate Untranslated(ctx: Context, fn: Func, i: Insn) {
    !TargetsImport(ctx, i) &&
    match i.op
    case NoOp => !KnownByClass(ctx, i)
    case Data(translated) => i.writesPc || (!translated && !KnownByClass(ctx, i))
    case B => i.target.None? || !(Local(ctx.img, fn, i.target.value)
                                  || (i.target.value in ctx.funcs && ctx.img.InSegment(i.target.value)))
    case Cbz => i.target.None? || !(Local(ctx.img, fn, i.target.value) || i.target.value in ctx.funcs)
    case Cbnz => i.target.None? || !(Local(ctx.img, fn, i.target.value) || i.target.value in ctx.funcs)
    case _ => i.writesPc
  }

  predicate KnownByClass(ctx: Context, i: Insn) {
    i.cls == Return || (i.cls == Call && i.target.Some? && i.target.value in ctx.funcs)
  }

  /** The statement printed has the effect of the instruction, here. */
  ghost predicate Right<S(!new)>(ctx: Context, fn: Func, table: seq<Entry>, labels: seq<nat>, m: Machine<S>, i: Insn,
                                 s: S)
    requires OpFits(i)
  {
    Printed(ctx, table, labels, m, i, s) == Step(ctx, fn, m, i, s)
  }

  /** A return through lr, printed as a dispatch. */
  predicate LinkReturn(i: Insn) {
    i.cls == Return && i.op == Bx
  }

  /** A return known by its class alone, printed without the rest of its effect. */
  predicate BareReturn(i: Insn) {
    i.cls == Return && i.op == NoOp
  }

  /** A call or jump to the address in a register. */
  predicate ByRegister(i: Insn) {
    i.op in {Bx, Blx} && i.cls != Return
  }

  /** An address in a register leads to something the module knows. */
  predicate Bound(ctx: Context, a: nat) {
    Binding(ctx.funcs, ctx.stubs, ClearThumb(a)).Some?
  }

  /** Straight-line C. */
  predicate Straight(i: Insn) {
    i.op.Data? || i.op.It? || i.op == Pop(false)
  }

  /** What the statement printed does to a skipped instruction is nothing: it tests the
      same, or does nothing here anyway. */
  ghost predicate Skips<S(!new)>(ctx: Context, m: Machine<S>, i: Insn, s: S) {
    (!TargetsImport(ctx, i) && !OwnTest(m, i, s)) || (Straight(i) && m.exec(i, s) == s)
  }

  /** What the printed statement leaves out does not matter here: a call's lr is not kept,
      a register leads somewhere, a bare return has nothing else to do. */
  ghost predicate Spared<S(!new)>(ctx: Context, m: Machine<S>, i: Insn, s: S) {
    && (i.cls == Call ==> m.link(i, s) == s)
    && (ByRegister(i) ==> Bound(ctx, m.reg(i, s)))
    && (BareReturn(i) ==> m.exec(i, s) == s)
  }

  /** Where the printed statement is right, in terms of the record and the state. */
  ghost predicate Sure<S(!new)>(ctx: Context, fn: Func, m: Machine<S>, i: Insn, s: S) {
    && !Untranslated(ctx, fn, i)
    && if Executed(ctx, fn, m, i, s) then !LinkReturn(i) && Spared(ctx, m, i, s) else Skips(ctx, m, i, s)
  }

  /** Exactly where the statement printed for an instruction has the instruction's effect;
      and it halts exactly when there is no translation, or nothing is bound to the
      address in the register it dispatches on. */
  lemma StatementMatches<S(!new)>(ctx: Context, fn: Func, table: seq<Entry>, labels: seq<nat>, m: Machine<S>, i: Insn,
                                  s: S)
    requires OpFits(i) && m.Sane()
    requires Binds(table, ctx.funcs, ctx.stubs) && LabelsComplete(ctx.img, fn, i, labels)
    ensures Right(ctx, fn, table, labels, m, i, s) <==> Sure(ctx, fn, m, i, s)
    ensures Printed(ctx, table, labels, m, i, s).Stop? <==>
            Untranslated(ctx, fn, i) || (i.op in {Bx, Blx} && !Bound(ctx, m.reg(i, s)))
  {
    hide Binds, Binding, Answer, ClearThumb, Bound, Executed, OwnTest, Step, Printed;
    if i.cls == Branch {
      BranchMatches(ctx, fn, table, labels, m, i, s);
    } else if i.op in {Bx, Blx} {
      RegisterMatches(ctx, fn, table, labels, m, i, s);
    } else {
      OtherMatches(ctx, fn, table, labels, m, i, s);
    }
  }

  lemma BranchMatches<S(!new)>(ctx: Context, fn: Func, table: seq<Entry>, labels: seq<nat>, m: Machine<S>, i: Insn,
                               s: S)
    requires OpFits(i) && m.Sane() && LabelsComplete(ctx.img, fn, i, labels) && i.cls == Branch
    ensures Right(ctx, fn, table, labels, m, i, s) <==> Sure(ctx, fn, m, i, s)
    ensures Printed(ctx, table, labels, m, i, s).Stop? <==> Untranslated(ctx, fn, i)
  {
    hide Local, UnderIt;
    assert m.cond(14, s);
  }

  lemma RegisterMatches<S(!new)>(ctx: Context, fn: Func, table: seq<Entry>, labels: seq<nat>, m: Machine<S>, i: Insn,
                                 s: S)
    requires OpFits(i) && Binds(table, ctx.funcs, ctx.stubs) && i.op in {Bx, Blx}
    ensures Right(ctx, fn, table, labels, m, i, s) <==> Sure(ctx, fn, m, i, s)
    ensures Printed(ctx, table, labels, m, i, s).Stop? <==> Untranslated(ctx, fn, i) || !Bound(ctx, m.reg(i, s))
  {
    hide Binds, Answer, Binding, ClearThumb, UnderIt;
    AnswerIsBinding(table, ctx.funcs, ctx.stubs, ClearThumb(m.reg(i, s)));
  }

  lemma OtherMatches<S(!new)>(ctx: Context, fn: Func, table: seq<Entry>, labels: seq<nat>, m: Machine<S>, i: Insn, s: S)
    requires OpFits(i) && i.cls != Branch && i.op !in {Bx, Blx}
    ensures Right(ctx, fn, table, labels, m, i, s) <==> Sure(ctx, fn, m, i, s)
    ensures Printed(ctx, table, labels, m, i, s).Stop? <==> Untranslated(ctx, fn, i)
  {
    hide UnderIt;
  }

  // ----- up to what does not matter

  /** The same effect on related states, the printed one first. */
  ghost predicate Alike<S(!new)>(r: (S, S) -> bool, e: Effect<S>, e': Effect<S>) {
    r(e.s, e'.s) &&
    match e
    case Next(_) => e'.Next?
    case Jump(l, _) => e'.Jump? && e'.l == l
    case Enter(callee, _) => e'.Enter? && e'.callee == callee
    case Leave(exit, _) => e'.Leave? && e'.exit == exit
    case Stop(_) => e'.Stop?
  }

  /** In every state that stands for `s`, what the printed statement does stands for what
      the instruction does in `s`: a call's lr may differ if the relation ignores it. */
  ghost predicate SureWithin<S(!new)>(ctx: Context, fn: Func, m: Machine<S>, r: (S, S) -> bool, i: Insn, s: S) {
    && !Untranslated(ctx, fn, i) && (Executed(ctx, fn, m, i, s) ==> !LinkReturn(i))
    && forall s' :: r(s', s) ==>
         && OwnTest(m, i, s') == OwnTest(m, i, s)
         && if Executed(ctx, fn, m, i, s) then Keeps(ctx, m, r, i, s', s) else SkipsWithin(ctx, m, r, i, s', s)
  }

  /** The printed statement in `s'` leaves out nothing that matters to `s`. */
  ghost predicate Keeps<S(!new)>(ctx: Context, m: Machine<S>, r: (S, S) -> bool, i: Insn, s': S, s: S) {
    && (ByRegister(i) ==> m.reg(i, s') == m.reg(i, s) && Bound(ctx, m.reg(i, s)))
    && match i.cls
       case Branch => true
       case Indirect => true
       case Call => r(s', m.link(i, s))
       case Return => r(if BareReturn(i) then s' else m.exec(i, s'), m.exec(i, s))
       case _ => r(m.exec(i, s'), m.exec(i, s))
  }

  ghost predicate SkipsWithin<S(!new)>(ctx: Context, m: Machine<S>, r: (S, S) -> bool, i: Insn, s': S, s: S) {
    (!TargetsImport(ctx, i) && !OwnTest(m, i, s)) || (Straight(i) && r(m.exec(i, s'), s))
  }

  /** Such a statement follows the instruction. */
  lemma StatementFollows<S(!new)>(ctx: Context, fn: Func, table: seq<Entry>, labels: seq<nat>, m: Machine<S>,
                                  r: (S, S) -> bool, i: Insn, s': S, s: S)
    requires OpFits(i) && m.Sane() && r(s', s) && SureWithin(ctx, fn, m, r, i, s)
    requires Binds(table, ctx.funcs, ctx.stubs) && LabelsComplete(ctx.img, fn, i, labels)
    ensures Alike(r, Printed(ctx, table, labels, m, i, s'), Step(ctx, fn, m, i, s))
  {
    hide Binds, Binding, Answer, ClearThumb, Executed, Step, Printed, LabelsComplete;
    if i.cls == Branch {
      BranchFollows(ctx, fn, table, labels, m, r, i, s', s);
    } else if i.op in {Bx, Blx} {
      RegisterFollows(ctx, fn, table, labels, m, r, i, s', s);
    } else {
      OtherFollows(ctx, fn, table, labels, m, r, i, s', s);
    }
  }

  lemma BranchFollows<S(!new)>(ctx: Context, fn: Func, table: seq<Entry>, labels: seq<nat>, m: Machine<S>,
                               r: (S, S) -> bool, i: Insn, s': S, s: S)
    requires OpFits(i) && m.Sane() && r(s', s) && SureWithin(ctx, fn, m, r, i, s)
    requires LabelsComplete(ctx.img, fn, i, labels) && i.cls == Branch
    ensures Alike(r, Printed(ctx, table, labels, m, i, s'), Step(ctx, fn, m, i, s))
  {
    hide Local, UnderIt;
    assert m.cond(14, s) && m.cond(14, s');
  }

  lemma RegisterFollows<S(!new)>(ctx: Context, fn: Func, table: seq<Entry>, labels: seq<nat>, m: Machine<S>,
                                 r: (S, S) -> bool, i: Insn, s': S, s: S)
    requires OpFits(i) && r(s', s) && SureWithin(ctx, fn, m, r, i, s)
    requires Binds(table, ctx.funcs, ctx.stubs) && i.op in {Bx, Blx}
    ensures Alike(r, Printed(ctx, table, labels, m, i, s'), Step(ctx, fn, m, i, s))
  {
    hide Binds, Answer, Binding, ClearThumb, UnderIt;
    AnswerIsBinding(table, ctx.funcs, ctx.stubs, ClearThumb(m.reg(i, s)));
  }

  lemma OtherFollows<S(!new)>(ctx: Context, fn: Func, table: seq<Entry>, labels: seq<nat>, m: Machine<S>,
                              r: (S, S) -> bool, i: Insn, s': S, s: S)
    requires OpFits(i) && r(s', s) && SureWithin(ctx, fn, m, r, i, s)
    requires i.cls != Branch && i.op !in {Bx, Blx}
    ensures Alike(r, Printed(ctx, table, labels, m, i, s'), Step(ctx, fn, m, i, s))
  {
    hide UnderIt;
  }

  /** Two states are the same. */
  ghost function Same<S(!new)>(): (S, S) -> bool {
    (x, y) => x == y
  }

  /** With nothing ignored this is being sure. */
  lemma SureIsWithin<S(!new)>(ctx: Context, fn: Func, m: Machine<S>, i: Insn, s: S)
    requires OpFits(i)
    ensures Sure(ctx, fn, m, i, s) <==> SureWithin(ctx, fn, m, Same(), i, s)
  {
    hide Untranslated, Executed, OwnTest, Bound;
    assert Same()(s, s);
  }

  /** A direct call of a function or import, in no IT block, is sure within every relation
      that ignores what the call leaves in lr. */
  lemma CallIsSure<S(!new)>(ctx: Context, fn: Func, m: Machine<S>, r: (S, S) -> bool, i: Insn, s: S)
    requires OpFits(i) && i.cls == Call && i.target.Some? && !i.conditional && !UnderSomeIt(ctx.img, fn, i.addr)
    requires TargetsImport(ctx, i) || i.target.value in ctx.funcs
    requires forall s' :: r(s', s) ==> r(s', m.link(i, s))
    ensures SureWithin(ctx, fn, m, r, i, s)
  {
    hide UnderIt;
  }

  ghost predicate UnderSomeIt(img: Image, fn: Func, a: nat) {
    exists c :: UnderIt(img, fn, a, c)
  }

  // ----- on all machines

  /** The statement printed leaves out a condition of the instruction: no record gives
      the one of an IT block, the record of an ARM instruction only says that there is
      one, and a branch is bound to an import before its condition is looked at. */
  ghost predicate DropsCondition(ctx: Context, fn: Func, i: Insn) {
    !Untranslated(ctx, fn, i) && (DropsIt(ctx, fn, i) || ArmGuarded(i) || DropsOwn(ctx, i))
  }

  ghost predicate DropsIt(ctx: Context, fn: Func, i: Insn) {
    exists c :: UnderIt(ctx.img, fn, i.addr, c) && Unprinted(ctx, i, c)
  }

  predicate Unprinted(ctx: Context, i: Insn, c: nat) {
    c !in {14, 15} && (i.op == B && i.cond == c ==> TargetsImport(ctx, i))
  }

  predicate DropsOwn(ctx: Context, i: Insn) {
    TargetsImport(ctx, i) && (i.op in {Cbz, Cbnz} || (i.op == B && i.cond !in {14, 15}))
  }

  /** Where no condition is dropped, what is skipped is skipped in print. */
  lemma KeptConditions<S(!new)>(ctx: Context, fn: Func, m: Machine<S>, i: Insn, s: S)
    requires OpFits(i) && m.Sane() && !Untranslated(ctx, fn, i) && !DropsCondition(ctx, fn, i)
    ensures !Executed(ctx, fn, m, i, s) ==> Skips(ctx, m, i, s)
  {
    hide Untranslated, UnderIt;
    assert m.cond(14, s) && m.cond(15, s);
  }

  /** A machine on which condition `c` fails. */
  function Failing(c: nat): Machine<bool> {
    Machine((_, s) => !s, (x, s) => x != c, (_, s) => s, (_, s) => 0, (_, s) => s, (_, s) => s)
  }

  /** Where a condition is dropped, a machine that skips the instruction tells. */
  lemma DroppedShows(ctx: Context, fn: Func, i: Insn)
    requires OpFits(i) && DropsCondition(ctx, fn, i)
    ensures exists m: Machine<bool>, s :: m.Sane() && !Executed(ctx, fn, m, i, s) && !Sure(ctx, fn, m, i, s)
  {
    hide Untranslated, UnderIt;
    var c: nat, s := if i.op == B then i.cond else 0, i.op == Cbnz;
    if ArmGuarded(i) {
      c := i.guard;
    } else if DropsIt(ctx, fn, i) {
      c :| UnderIt(ctx.img, fn, i.addr, c) && Unprinted(ctx, i, c);
      s := i.op != Cbnz;
    }
    assert !Failing(c).cond(c, s);
    assert Failing(c).Sane() && !Executed(ctx, fn, Failing(c), i, s) && !Sure(ctx, fn, Failing(c), i, s);
  }

  /** A machine that skips nothing, keeps lr, and has `a` in every register. */
  function Willing(a: nat): Machine<bool> {
    Machine((_, s) => !s, (_, _) => true, (_, s) => s, (_, _) => a, (_, s) => !s, (_, s) => s)
  }

  /** Above all of `v`. */
  function Beyond(v: seq<nat>): (r: nat)
    ensures forall a :: a in v ==> a < r
  {
    if v == [] then 0 else
      var rest := Beyond(v[1..]);
      assert v == [v[0]] + v[1..];
      if v[0] < rest then rest else v[0] + 1
  }

  /** Some address leads nowhere. */
  lemma UnboundAddress(ctx: Context) returns (a: nat)
    ensures !Bound(ctx, a)
  {
    var f, g := Beyond(ctx.funcs), Beyond(ctx.stubs);
    a := 2 * (f + g);
    assert ClearThumb(a) == a;
  }

  /** The statement would do were there nothing to leave out. */
  ghost predicate Faithful(ctx: Context, fn: Func, i: Insn) {
    !Untranslated(ctx, fn, i) && !DropsCondition(ctx, fn, i) && !LinkReturn(i)
  }

  /** Exactly which instructions are printed right. On every machine and state: those with
      a translation, a printed condition if any, and no call, return or jump that leaves
      out lr, a dispatch miss or other work. Where these do not matter: all with a
      translation and a printed condition, but the returns through lr. */
  lemma StatementMatchesIff(ctx: Context, fn: Func, table: seq<Entry>, labels: seq<nat>, i: Insn)
    requires OpFits(i) && Binds(table, ctx.funcs, ctx.stubs) && LabelsComplete(ctx.img, fn, i, labels)
    ensures (forall m: Machine<bool>, s :: m.Sane() ==> Right(ctx, fn, table, labels, m, i, s))
       <==> Faithful(ctx, fn, i) && i.cls != Call && !ByRegister(i) && !BareReturn(i)
    ensures (forall m: Machine<bool>, s :: m.Sane() && (Executed(ctx, fn, m, i, s) ==> Spared(ctx, m, i, s)) ==>
               Right(ctx, fn, table, labels, m, i, s))
       <==> Faithful(ctx, fn, i)
  {
    hide Right, Binds, LabelsComplete, Untranslated, DropsCondition, UnderIt, Bound, Skips;
    forall m: Machine<bool>, s | m.Sane()
      ensures Right(ctx, fn, table, labels, m, i, s) <==> Sure(ctx, fn, m, i, s)
    {
      StatementMatches(ctx, fn, table, labels, m, i, s);
    }
    if Faithful(ctx, fn, i) {
      forall m: Machine<bool>, s | m.Sane() ensures !Executed(ctx, fn, m, i, s) ==> Skips(ctx, m, i, s) {
        KeptConditions(ctx, fn, m, i, s);
      }
      var a := UnboundAddress(ctx);
      var m, s := Willing(a), i.op != Cbnz;
      assert m.Sane() && Executed(ctx, fn, m, i, s);
      assert i.cls == Call || ByRegister(i) || BareReturn(i) ==> !Sure(ctx, fn, m, i, s);
    } else if DropsCondition(ctx, fn, i) {
      DroppedShows(ctx, fn, i);
    } else {
      var m, s := if Untranslated(ctx, fn, i) then Failing(0) else Willing(0), i.op != Cbnz;
      UntranslatedPlain(ctx, fn, m, i, s);
      assert m.Sane() && (Executed(ctx, fn, m, i, s) ==> Spared(ctx, m, i, s));
      assert !Sure(ctx, fn, m, i, s);
    }
  }

  /** What has no translation is no return and goes through no register. */
  lemma UntranslatedPlain(ctx: Context, fn: Func, m: Machine<bool>, i: Insn, s: bool)
    requires OpFits(i)
    ensures Untranslated(ctx, fn, i) ==> !ByRegister(i) && !BareReturn(i)
  {
  }
}
