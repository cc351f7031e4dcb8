/** Concrete instructions that are printed as something else than they are. */
module Misprints {
  import opened Code
  import opened Emit
  import opened Dispatch
  import opened Simulate
  import opened Decode

  /** The printed statement is wrong on some machine, though lr, dispatch misses and what
      a bare return leaves out do not matter there. */
  ghost predicate Wrong(ctx: Context, fn: Func, table: seq<Entry>, labels: seq<nat>, i: Insn)
    requires OpFits(i)
  {
    exists m: Machine<bool>, s :: m.Sane() && (Executed(ctx, fn, m, i, s) ==> Spared(ctx, m, i, s))
                                  && !Right(ctx, fn, table, labels, m, i, s)
  }

  /** BEQ to an import stub in ARM code: the record says "conditional" and no more, and
      the firmware call is printed without a condition. */
  lemma ArmBranchToImport(ctx: Context, fn: Func, table: seq<Entry>, labels: seq<nat>)
    requires 0x1008 in ctx.stubs && Binds(table, ctx.funcs, ctx.stubs)
    ensures var i := DecodeA32(0x0A00_0000, 0x1000);
            && i.cls == Branch && i.op == NoOp && i.conditional && i.cond == COND_AL && i.target == Some(0x1008)
            && Translate(i, ctx.Lookup(i, labels)) == (Always, TailImport(0x1008))
            && (LabelsComplete(ctx.img, fn, i, labels) ==> Wrong(ctx, fn, table, labels, i))
  {
    hide Right, Local, Spared, Executed, Binds, UnderIt;
    var i := DecodeA32(0x0A00_0000, 0x1000);
    assert i.cls == Branch && i.op == NoOp && i.conditional && i.cond == COND_AL && i.target == Some(0x1008);
    hide DecodeA32;
    if LabelsComplete(ctx.img, fn, i, labels) {
      StatementMatchesIff(ctx, fn, table, labels, i);
    }
  }

  /** BXEQ lr in ARM code: printed as an unconditional return. */
  lemma ArmConditionalReturn(ctx: Context, fn: Func, table: seq<Entry>, labels: seq<nat>, a: nat)
    requires Binds(table, ctx.funcs, ctx.stubs)
    ensures var i := DecodeA32(0x012F_FF1E, a);
            && i.cls == Return && i.conditional && Translate(i, ctx.Lookup(i, labels)) == (Always, Ret)
            && Wrong(ctx, fn, table, labels, i)
  {
    hide Right, Spared, Executed, Binds, UnderIt;
    var i := DecodeA32(0x012F_FF1E, a);
    assert i.cls == Return && i.op == NoOp && i.conditional;
    hide DecodeA32;
    StatementMatchesIff(ctx, fn, table, labels, i);
  }

  lemma ConditionalCallRecord()
    ensures var i := DecodeA32(0x0B00_0000, 0x1000);
            i.cls == Call && i.op == NoOp && i.conditional && i.cond == COND_AL && i.target == Some(0x1008)
  {
  }

  /** BLEQ to a function in ARM code: printed as an unconditional call. */
  lemma ArmConditionalCall(ctx: Context, fn: Func, table: seq<Entry>, labels: seq<nat>)
    requires 0x1008 in ctx.funcs && 0x1008 !in ctx.stubs && Binds(table, ctx.funcs, ctx.stubs)
    ensures var i := DecodeA32(0x0B00_0000, 0x1000);
            && i.cls == Call && i.conditional && i.target == Some(0x1008)
            && Translate(i, ctx.Lookup(i, labels)) == (Always, CallFunc(0x1008))
            && Wrong(ctx, fn, table, labels, i)
  {
    hide Right, Spared, Executed, Binds, UnderIt;
    var i := DecodeA32(0x0B00_0000, 0x1000);
    hide DecodeA32;
    ConditionalCallRecord();
    StatementMatchesIff(ctx, fn, table, labels, i);
  }

  /** IT EQ, ADDS or any other translated instruction: it is printed without the EQ. */
  lemma ItIgnored(ctx: Context, fn: Func, table: seq<Entry>, labels: seq<nat>, b: nat, data: nat -> DataForm, i: Insn)
    requires fn.mode == T32 && Takes(ctx.img, fn, b) && Reaches(ctx.img, fn, b)
    requires ctx.img.decode(b, T32) == Some(DecodeT16(0xBF08, b, data))
    requires OpFits(i) && i.addr == b + 2 && (i.op == B ==> i.cond != 0) && !Untranslated(ctx, fn, i)
    requires Binds(table, ctx.funcs, ctx.stubs) && LabelsComplete(ctx.img, fn, i, labels)
    ensures Wrong(ctx, fn, table, labels, i)
  {
    hide Right, Takes, Reaches, Spared, Executed, Binds, Untranslated, LabelsComplete;
    assert DecodeT16(0xBF08, b, data) == IfThen(b, 0, 8);
    assert Follows(ctx.img, T32, b + 2, 0, b + 2);
    assert Governs(ctx.img, fn, b, 0, b + 2, 0);
    assert UnderIt(ctx.img, fn, i.addr, 0) && Unprinted(ctx, i, 0);
    assert DropsCondition(ctx, fn, i);
    hide DecodeT16, Governs, UnderIt, DropsCondition;
    StatementMatchesIff(ctx, fn, table, labels, i);
  }

  /** BX lr in Thumb code: printed as a dispatch on lr, which comes back to the caller on
      no machine, and halts when lr holds the address of no function or import. */
  lemma ReturnThroughLink<S(!new)>(ctx: Context, fn: Func, table: seq<Entry>, labels: seq<nat>, a: nat,
                                   data: nat -> DataForm, m: Machine<S>, s: S)
    requires m.Sane() && Binds(table, ctx.funcs, ctx.stubs)
    ensures var i := DecodeT16(0x4770, a, data);
            && LinkReturn(i) && Translate(i, ctx.Lookup(i, labels)) == (Always, TailReg(i))
            && (Executed(ctx, fn, m, i, s) ==> !Right(ctx, fn, table, labels, m, i, s))
            && (!Bound(ctx, m.reg(i, s)) ==> Printed(ctx, table, labels, m, i, s) == Stop(s))
  {
    hide Right, Binds, Bound, Executed;
    StatementMatches(ctx, fn, table, labels, m, DecodeT16(0x4770, a, data), s);
  }

  /** POP.W {r4, pc}: printed as a return that restores neither r4 nor sp. */
  lemma WidePopReturn(ctx: Context, fn: Func, table: seq<Entry>, labels: seq<nat>, a: nat, data: nat -> DataForm)
    requires Binds(table, ctx.funcs, ctx.stubs)
    ensures var i := DecodeT32(0xE8BD, 0x8010, a, data);
            && BareReturn(i) && !i.conditional && Translate(i, ctx.Lookup(i, labels)) == (Always, Ret)
            && exists m: Machine<bool>, s :: m.Sane() && !Right(ctx, fn, table, labels, m, i, s)
  {
    var i := DecodeT32(0xE8BD, 0x8010, a, data);
    assert BareReturn(i) && !i.conditional;
    hide Right, DecodeT32, Binds;
    StatementMatchesIff(ctx, fn, table, labels, i);
  }

  /** MOV pc, r3 and LDR.W pc, [r0] jump wherever the register or the word says; both are
      recorded as returns to the caller. */
  lemma JumpsRecordedAsReturns(ctx: Context, labels: seq<nat>, a: nat, data: nat -> DataForm)
    ensures var i := DecodeA32(0xE1A0_F003, a);
            BareReturn(i) && !i.conditional && Translate(i, ctx.Lookup(i, labels)) == (Always, Ret)
    ensures var i := DecodeT32(0xF8D0, 0xF000, a, data);
            BareReturn(i) && !i.conditional && Translate(i, ctx.Lookup(i, labels)) == (Always, Ret)
  {
  }

  /** PLD, a hint, is recorded and printed as a bare return. */
  lemma HintRecordedAsReturn(ctx: Context, labels: seq<nat>, a: nat, data: nat -> DataForm)
    ensures var i := DecodeT32(0xF890, 0xF000, a, data);
            BareReturn(i) && !i.conditional && Translate(i, ctx.Lookup(i, labels)) == (Always, Ret)
  {
  }

  /** ADD pc, r3 is recorded and printed as BX r3. */
  lemma AddRecordedAsMove(ctx: Context, labels: seq<nat>, a: nat, data: nat -> DataForm)
    ensures var i := DecodeT16(0x449F, a, data);
            ByRegister(i) && Translate(i, ctx.Lookup(i, labels)) == (Always, TailReg(i))
  {
  }

  /** STM.W sp, {r1, r2}, which leaves sp alone and stores upwards, is recorded as PUSH. */
  lemma StoreRecordedAsPush(a: nat, data: nat -> DataForm)
    ensures DecodeT32(0xE88D, 0x0006, a, data).op == Data(true)
    ensures Lowest(0xE88D, 0x1000, 2) == 0x1000 == Moved(0xE88D, 0x1000, 2)
  {
  }
}
