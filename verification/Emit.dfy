/** emit_insn's control flow: the C printed for an instruction, as statements. */
module Emit {
  import opened Code
  import opened Search
  import opened Collect

  datatype Test = Always | Flags(cond: nat) | RegZero(i: Insn) | RegNonzero(i: Insn)

  /** What a printed statement does. `Exec` is an instruction's straight-line C; the
      `Tail` forms transfer and return; `Ret` and `PopRet` return. */
  datatype Action =
    | Exec(i: Insn) | CallFunc(f: nat) | CallImport(f: nat) | CallReg(i: Insn)
    | Goto(l: nat)
    | TailFunc(f: nat) | TailImport(f: nat) | TailReg(i: Insn)
    | Ret | PopRet(i: Insn)
    | Trap

  /** A label, or one instruction's statement under its address comment. */
  datatype Line = Label(l: nat) | Stmt(addr: nat, test: Test, act: Action)

  /** What emit_insn looks up before it prints: whether the target is an import stub,
      a defined function, a label of this body, inside the segment. */
  datatype Known = Known(isStub: bool, isFunc: bool, hasLabel: bool, inSegment: bool)

  /** The class-driven fallback for operations the switch could not print. */
  function Fallback(i: Insn, isFunc: bool): Action {
    if i.cls == Call && i.target.Some? && isFunc then CallFunc(i.target.value)
    else if i.cls == Return then Ret
    else Trap
  }

  function Translate(i: Insn, k: Known): (Test, Action)
    requires OpFits(i)
  {
    if i.cls in {Call, Branch} && i.target.Some? && k.isStub then
      (Always, if i.cls == Call then CallImport(i.target.value) else TailImport(i.target.value))
    else if i.op != NoOp && i.writesPc then (Always, Trap)
    else
      var guard := if i.cls != Branch && i.cond != COND_AL && !i.op.It? then Flags(i.cond) else Always;
      match i.op
      case NoOp => (guard, Fallback(i, k.isFunc))
      case Data(translated) => (guard, if translated then Exec(i) else Fallback(i, k.isFunc))
      case It(_) => (guard, Exec(i))
      case Pop(pc) => (guard, if pc then PopRet(i) else Exec(i))
      case Bx => (guard, if i.hasReg then TailReg(i) else Fallback(i, k.isFunc))
      case Blx => (guard, if i.hasReg then CallReg(i) else Fallback(i, k.isFunc))
      case B => Transfer(i, if i.cond == COND_AL then Always else Flags(i.cond), k, k.inSegment)
      case Cbz => Transfer(i, RegZero(i), k, true)
      case Cbnz => Transfer(i, RegNonzero(i), k, true)
  }

  /** A branch: a goto inside the body, a tail call to a function, else a trap, which
      is printed without the branch's condition. */
  function Transfer(i: Insn, test: Test, k: Known, inSegment: bool): (Test, Action)
    requires i.target.Some?
  {
    if k.hasLabel then (test, Goto(i.target.value))
    else if inSegment && k.isFunc then (test, TailFunc(i.target.value))
    else (Always, Trap)
  }

  /** An address with the Thumb bit cleared, as vm_find_stub searches for it. */
  function ClearThumb(a: nat): (r: nat)
    ensures r <= a && r % 2 == 0
  {
    a - a % 2
  }

  /** What the whole module knows: its image, sorted stub addresses, sorted functions. */
  datatype Context = Context(img: Image, stubs: seq<nat>, funcs: seq<nat>)
  {
    function Lookup(i: Insn, labels: seq<nat>): Known {
      if i.target.None? then Known(false, false, false, false) else
        var t := i.target.value;
        Known(ClearThumb(t) in stubs, t in funcs, t in labels, img.InSegment(t))
    }
  }

  function InsnLines(ctx: Context, labels: seq<nat>, i: Insn): (r: seq<Line>)
    requires OpFits(i)
    ensures |r| == if i.addr in labels then 2 else 1
  {
    var (test, act) := Translate(i, ctx.Lookup(i, labels));
    (if i.addr in labels then [Label(i.addr)] else []) + [Stmt(i.addr, test, act)]
  }

  /** The printed body of the first `n` instructions. */
  function Lines(ctx: Context, labels: seq<nat>, v: seq<Insn>, n: nat): seq<Line>
    requires n <= |v| && forall i :: i in v ==> OpFits(i)
    decreases v, n
  {
    if n == 0 then [] else Lines(ctx, labels, v, n - 1) + InsnLines(ctx, labels, v[n - 1])
  }

  /** `fb_has_label`. */
  method HasLabel(labels: seq<nat>, l: nat) returns (has: bool)
    ensures has <==> l in labels
  {
    for k := 0 to |labels|
      invariant l !in labels[..k]
    {
      if labels[k] == l {
        return true;
      }
    }
    has := false;
  }

  method LookUp(ctx: Context, labels: seq<nat>, i: Insn) returns (k: Known)
    requires Sorted(ctx.stubs) && Sorted(ctx.funcs)
    ensures k == ctx.Lookup(i, labels)
  {
    if i.target.None? {
      return Known(false, false, false, false);
    }
    var t := i.target.value;
    var s := Find(ctx.stubs, ClearThumb(t));
    var f := Find(ctx.funcs, t);
    var l := HasLabel(labels, t);
    k := Known(s < |ctx.stubs|, f < |ctx.funcs|, l, ctx.img.base <= t < ctx.img.base + ctx.img.len);
  }

  /** The printing loop of em_emit over one collected body. */
  method EmitBody(ctx: Context, b: Body) returns (lines: seq<Line>)
    requires Sorted(ctx.stubs) && Sorted(ctx.funcs) && forall i :: i in b.v ==> OpFits(i)
    ensures lines == Lines(ctx, b.labels, b.v, |b.v|)
  {
    lines := [];
    for k := 0 to |b.v|
      invariant lines == Lines(ctx, b.labels, b.v, k)
    {
      var i := b.v[k];
      var has := HasLabel(b.labels, i.addr);
      var known := LookUp(ctx, b.labels, i);
      var (test, act) := Translate(i, known);
      lines := lines + ((if has then [Label(i.addr)] else []) + [Stmt(i.addr, test, act)]);
    }
  }

  // ----- where things are in a printed body

  lemma {:induction false} LinesPrefix(ctx: Context, labels: seq<nat>, v: seq<Insn>, m: nat, n: nat)
    requires m <= n <= |v| && forall i :: i in v ==> OpFits(i)
    ensures Lines(ctx, labels, v, m) <= Lines(ctx, labels, v, n)
    decreases n
  {
    if m < n {
      LinesPrefix(ctx, labels, v, m, n - 1);
    }
  }

  /** Instruction `k`'s lines start where the lines of its predecessors end. */
  lemma LinesAt(ctx: Context, labels: seq<nat>, v: seq<Insn>, k: nat)
    requires k < |v| && forall i :: i in v ==> OpFits(i)
    ensures var all, at := Lines(ctx, labels, v, |v|), |Lines(ctx, labels, v, k)|;
            var mine := InsnLines(ctx, labels, v[k]);
            && at + |mine| <= |all| && all[at..at + |mine|] == mine
            && at + |mine| == |Lines(ctx, labels, v, k + 1)|
  {
    LinesPrefix(ctx, labels, v, k + 1, |v|);
    var all, upto := Lines(ctx, labels, v, |v|), Lines(ctx, labels, v, k + 1);
    var at := |Lines(ctx, labels, v, k)|;
    assert all[..|upto|] == upto;
    assert all[at..|upto|] == upto[at..];
  }

  /** Every line of a body comes from one of its instructions. */
  lemma {:induction false} LineComesFrom(ctx: Context, labels: seq<nat>, v: seq<Insn>, n: nat, q: nat) returns (k: nat)
    requires n <= |v| && (forall i :: i in v ==> OpFits(i)) && q < |Lines(ctx, labels, v, n)|
    ensures k < n && 0 <= q - |Lines(ctx, labels, v, k)| < |InsnLines(ctx, labels, v[k])|
    ensures Lines(ctx, labels, v, n)[q] == InsnLines(ctx, labels, v[k])[q - |Lines(ctx, labels, v, k)|]
    decreases n
  {
    var before := Lines(ctx, labels, v, n - 1);
    if q < |before| {
      k := LineComesFrom(ctx, labels, v, n - 1, q);
    } else {
      k := n - 1;
    }
  }

  lemma LabelLine(ctx: Context, labels: seq<nat>, i: Insn)
    requires OpFits(i)
    ensures var mine := InsnLines(ctx, labels, i);
            && (i.addr in labels ==> mine[0] == Label(i.addr))
            && forall q :: 0 <= q < |mine| && mine[q].Label? ==> q == 0 && mine[q] == Label(i.addr)
  {
  }

  /** Where label `l` is placed: at the start of its instruction's lines. */
  lemma LabelPlaced(ctx: Context, labels: seq<nat>, v: seq<Insn>, k: nat)
    requires k < |v| && (forall i :: i in v ==> OpFits(i)) && v[k].addr in labels && Ascending(v)
    ensures var lines, at := Lines(ctx, labels, v, |v|), |Lines(ctx, labels, v, k)|;
            && at < |lines| && lines[at] == Label(v[k].addr)
            && forall q :: 0 <= q < |lines| && lines[q] == Label(v[k].addr) ==> q == at
  {
    hide InsnLines, Lines, OpFits;
    var lines, at := Lines(ctx, labels, v, |v|), |Lines(ctx, labels, v, k)|;
    LinesAt(ctx, labels, v, k);
    LabelLine(ctx, labels, v[k]);
    assert lines[at] == lines[at..at + |InsnLines(ctx, labels, v[k])|][0];
    forall q | 0 <= q < |lines| && lines[q] == Label(v[k].addr) ensures q == at {
      var j := LineComesFrom(ctx, labels, v, |v|, q);
      LabelLine(ctx, labels, v[j]);
      assert v[j].addr == v[k].addr;
    }
  }

  ghost predicate PlacedOnce(lines: seq<Line>, l: nat) {
    exists at :: 0 <= at < |lines| && lines[at] == Label(l)
                 && forall q :: 0 <= q < |lines| && lines[q] == Label(l) ==> q == at
  }

  /** Every label of a body is placed exactly once in it. */
  lemma LabelPlacedOnce(ctx: Context, img: Image, fn: Func, b: Body, taken: set<nat>, l: nat)
    requires img.Decodes() && IsBody(img, fn, b, taken) && l in b.labels
    requires forall i :: i in b.v ==> OpFits(i)
    ensures PlacedOnce(Lines(ctx, b.labels, b.v, |b.v|), l)
  {
    hide Lines, OpFits, Image.Decodes, BranchesTo;
    PlacedIsTaken(img, fn, b.v, taken, l);
    var k :| 0 <= k < |b.v| && b.v[k].addr == l;
    LabelPlaced(ctx, b.labels, b.v, k);
  }

  /** No goto dangles: the label a body's goto names is placed exactly once in it,
      whatever limits cut the body short. */
  lemma GotosLand(ctx: Context, img: Image, fn: Func, b: Body, taken: set<nat>)
    requires img.Decodes() && IsBody(img, fn, b, taken) && forall i :: i in b.v ==> OpFits(i)
    ensures var lines := Lines(ctx, b.labels, b.v, |b.v|);
            forall q :: 0 <= q < |lines| && lines[q].Stmt? && lines[q].act.Goto? ==> PlacedOnce(lines, lines[q].act.l)
  {
    hide IsBody, PlacedOnce, Lines, Image.Decodes;
    var lines := Lines(ctx, b.labels, b.v, |b.v|);
    forall q | 0 <= q < |lines| && lines[q].Stmt? && lines[q].act.Goto? ensures PlacedOnce(lines, lines[q].act.l) {
      var k := LineComesFrom(ctx, b.labels, b.v, |b.v|, q);
      assert lines[q].act.l in b.labels;
      LabelPlacedOnce(ctx, img, fn, b, taken, lines[q].act.l);
    }
  }

  /** Calls name functions the module defines, imports it declares. */
  lemma CallsKnown(ctx: Context, labels: seq<nat>, v: seq<Insn>)
    requires forall i :: i in v ==> OpFits(i)
    ensures forall q :: 0 <= q < |Lines(ctx, labels, v, |v|)| ==>
              CallKnown(ctx, Lines(ctx, labels, v, |v|)[q])
  {
    hide Lines;
    var lines := Lines(ctx, labels, v, |v|);
    forall q | 0 <= q < |lines| ensures CallKnown(ctx, lines[q]) {
      var k := LineComesFrom(ctx, labels, v, |v|, q);
      assert v[k] in v;
    }
  }

  predicate CallKnown(ctx: Context, line: Line) {
    line.Stmt? ==>
      match line.act
      case CallFunc(f) => f in ctx.funcs
      case TailFunc(f) => f in ctx.funcs
      case CallImport(f) => ClearThumb(f) in ctx.stubs
      case TailImport(f) => ClearThumb(f) in ctx.stubs
      case _ => true
  }
}
