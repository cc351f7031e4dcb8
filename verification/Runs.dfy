/** Whole programs: the printed module, calling and dispatching, against the decoded
    functions it was printed from. */
module Runs {
  import opened Code
  import opened Limits
  import opened Collect
  import opened Emit
  import opened Simulate
  import opened Dispatch
  import opened Module

  /** A function that was entered, and where it goes on: at a line or at an address. */
  datatype Frame = Frame(fn: nat, at: nat)

  /** A program at work, the frame at hand last; or it came back from its first
      function, trapped, or went to an address that is none of the module's. */
  datatype Config<S> = Running(stack: seq<Frame>, s: S) | Finished(s: S) | Halted(s: S) | Lost(a: nat, s: S)

  function Resume<S>(stack: seq<Frame>, s: S): Config<S> {
    if stack == [] then Finished(s) else Running(stack, s)
  }

  /** Entering a function starts it, at its first line in print and else at its address;
      a firmware function is done at once. */
  function Go<S(!new)>(m: Machine<S>, stack: seq<Frame>, inPrint: bool, callee: Callee, s: S): Config<S> {
    match callee
    case Function(f) => Running(stack + [Frame(f, if inPrint then 0 else f)], s)
    case Import(f) => Resume(stack, m.hle(f, s))
    case Nowhere(a) => Lost(a, s)
  }

  /** What an effect makes of the frames below and of the one at hand, in function `fn`:
      it goes on at `next`, and a jump lands at `land`. */
  function After<S(!new)>(m: Machine<S>, rest: seq<Frame>, fn: nat, next: nat, land: nat, inPrint: bool,
                          e: Effect<S>): Config<S> {
    match e
    case Next(s) => Running(rest + [Frame(fn, next)], s)
    case Jump(_, s) => Running(rest + [Frame(fn, land)], s)
    case Enter(callee, s) => Go(m, rest + [Frame(fn, next)], inPrint, callee, s)
    case Leave(ToCaller, s) => Resume(rest, s)
    case Leave(To(callee), s) => Go(m, rest, inPrint, callee, s)
    case Stop(s) => Halted(s)
  }

  // ----- the printed program

  /** The body of the first definition of `vita_func_<a>`. */
  function BodyLines(defs: seq<Def>, a: nat): seq<Line> {
    if defs == [] then [] else if defs[0].addr == a then defs[0].lines else BodyLines(defs[1..], a)
  }

  /** The next statement from line `q` on. */
  function StatementFrom(lines: seq<Line>, q: nat): (r: nat)
    ensures r < |lines| ==> lines[r].Stmt?
    decreases |lines| - q
  {
    if q >= |lines| || lines[q].Stmt? then q else StatementFrom(lines, q + 1)
  }

  /** The line a label stands on, or past the end. */
  function LabelLineOf(lines: seq<Line>, l: nat, from: nat): (q: nat)
    requires from <= |lines|
    ensures from <= q <= |lines| && (q < |lines| ==> lines[q] == Label(l))
    ensures forall r :: from <= r < q ==> lines[r] != Label(l)
    decreases |lines| - from
  {
    if from == |lines| || lines[from] == Label(l) then from else LabelLineOf(lines, l, from + 1)
  }

  /** One statement of the printed program; running off the end of a C function returns. */
  function PrintedStep<S(!new)>(out: Output, m: Machine<S>, c: Config<S>): Config<S> {
    if !c.Running? || c.stack == [] then c else
      var k := |c.stack| - 1;
      var lines := BodyLines(out.defs, c.stack[k].fn);
      var q := StatementFrom(lines, c.stack[k].at);
      if q >= |lines| then Resume(c.stack[..k], c.s)
      else
        var e := Outcome(out.table, m, lines[q].test, lines[q].act, c.s);
        After(m, c.stack[..k], c.stack[k].fn, q + 1, if e.Jump? then LabelLineOf(lines, e.l, 0) else 0, true, e)
  }

  // ----- the decoded program

  /** The record of the function at `a`. */
  function FuncAt(funcs: seq<Func>, a: nat): (r: Func)
    requires a in FuncAddrs(funcs)
    ensures r in funcs && r.addr == a
  {
    if funcs[0].addr == a then funcs[0] else
      assert a in FuncAddrs(funcs[1..]) by {
        var k :| 0 <= k < |funcs| && FuncAddrs(funcs)[k] == a;
        assert FuncAddrs(funcs[1..])[k - 1] == a;
      }
      FuncAt(funcs[1..], a)
  }

  /** One instruction of the decoded program. */
  ghost function DecodedStep<S(!new)>(p: Program, m: Machine<S>, c: Config<S>): Config<S>
    requires Built(p)
  {
    if !c.Running? || c.stack == [] || c.stack[|c.stack| - 1].fn !in p.ctx.funcs then c else
      var k := |c.stack| - 1;
      var fn, a := FuncAt(p.funcs, c.stack[k].fn), c.stack[k].at;
      if p.ctx.img.decode(a, fn.mode).None? then Lost(a, c.s)
      else
        var i := p.ctx.img.decode(a, fn.mode).value;
        var e := Step(p.ctx, fn, m, i, c.s);
        After(m, c.stack[..k], fn.addr, a + i.width, if e.Jump? then e.l else 0, false, e)
  }

  ghost function PrintedRun<S(!new)>(p: Program, m: Machine<S>, f: nat, s: S, n: nat): Config<S> {
    if n == 0 then Running([Frame(f, 0)], s) else PrintedStep(p.out, m, PrintedRun(p, m, f, s, n - 1))
  }

  ghost function DecodedRun<S(!new)>(p: Program, m: Machine<S>, f: nat, s: S, n: nat): Config<S>
    requires Built(p)
  {
    if n == 0 then Running([Frame(f, f)], s) else DecodedStep(p, m, DecodedRun(p, m, f, s, n - 1))
  }

  // ----- where nothing is promised

  /** Flow can go on past the instruction to the next address. */
  predicate CanFall(i: Insn) {
    i.cls !in {Return, Indirect} && !(i.cls == Branch && !i.conditional)
  }

  /** The instruction is not overlapped by reachable code, and does not fall off the bound
      or into undecodable bytes. */
  ghost predicate OrderlyAt(img: Image, fn: Func, a: nat)
    requires img.decode(a, fn.mode).Some?
  {
    var i := img.decode(a, fn.mode).value;
    CanFall(i) ==>
      && Takes(img, fn, a + i.width)
      && forall b :: a < b && Takes(img, fn, b) && Reaches(img, fn, b) ==> a + i.width <= b
  }

  /** The function is printed, not left out under a limit, and collected whole. */
  ghost predicate Whole(p: Program, fn: Func) {
    Emits(p.ctx, p.out, fn) && Fits(p.ctx.img, fn) && Takes(p.ctx.img, fn, fn.addr)
  }

  /** The decoded program is at an instruction whose statement need not do the same, up to
      `r`: it is in a function that was not printed whole, out of order, or printed
      otherwise. */
  ghost predicate Deviates<S(!new)>(p: Program, m: Machine<S>, r: (S, S) -> bool, c: Config<S>)
    requires Built(p)
  {
    && c.Running? && c.stack != [] && c.stack[|c.stack| - 1].fn in p.ctx.funcs
    && var fn, a := FuncAt(p.funcs, c.stack[|c.stack| - 1].fn), c.stack[|c.stack| - 1].at;
       || !Whole(p, fn) || p.ctx.img.decode(a, fn.mode).None?
       || !OrderlyAt(p.ctx.img, fn, a) || !SureWithin(p.ctx, fn, m, r, p.ctx.img.decode(a, fn.mode).value, c.s)
  }

  // ----- the bodies

  /** The body collect gives for `fn` when no limit was met. */
  ghost predicate WholeBody(ctx: Context, fn: Func, b: Body, taken: set<nat>) {
    && ctx.img.Decodes() && IsBody(ctx.img, fn, b, taken)
    && (forall a :: a in taken <==> Takes(ctx.img, fn, a) && Reaches(ctx.img, fn, a))
    && (forall i :: i in b.v ==> OpFits(i))
  }

  /** The printed body stands before the lines of instruction `k` when the decoded flow
      stands at its address. */
  ghost predicate Stands(p: Program, fn: Func, b: Body, taken: set<nat>, k: nat, q: nat, a: nat) {
    && WholeBody(p.ctx, fn, b, taken) && k < |b.v|
    && BodyLines(p.out.defs, fn.addr) == Lines(p.ctx, b.labels, b.v, |b.v|)
    && q == |Lines(p.ctx, b.labels, b.v, k)| && a == b.v[k].addr
  }

  /** The two frames are at the same place of the same function; at its start, where its
      body says nothing about it. */
  ghost predicate Level(p: Program, printed: Frame, decoded: Frame)
    requires Built(p)
  {
    && printed.fn == decoded.fn && printed.fn in p.ctx.funcs
    && var fn := FuncAt(p.funcs, printed.fn);
       if Whole(p, fn) then exists b, taken, k :: Stands(p, fn, b, taken, k, printed.at, decoded.at)
       else printed.at == 0 && decoded.at == decoded.fn
  }

  ghost predicate AllLevel(p: Program, printed: seq<Frame>, decoded: seq<Frame>)
    requires Built(p)
  {
    |printed| == |decoded| && forall k :: 0 <= k < |printed| ==> Level(p, printed[k], decoded[k])
  }

  /** Related states, and the same frames at the same places, or the same end. */
  ghost predicate Matches<S(!new)>(p: Program, r: (S, S) -> bool, printed: Config<S>, decoded: Config<S>)
    requires Built(p)
  {
    r(printed.s, decoded.s) &&
    match printed
    case Running(stack, _) => stack != [] && decoded.Running? && AllLevel(p, stack, decoded.stack)
    case Finished(_) => decoded.Finished?
    case Halted(_) => false
    case Lost(a, _) => decoded.Lost? && decoded.a == a
  }

  /** What firmware does to states that are related leaves them so. */
  ghost predicate Shared<S(!new)>(m: Machine<S>, r: (S, S) -> bool) {
    forall f, x, y :: r(x, y) ==> r(m.hle(f, x), m.hle(f, y))
  }

  lemma BodyInsn(ctx: Context, fn: Func, b: Body, taken: set<nat>, k: nat)
    requires WholeBody(ctx, fn, b, taken) && k < |b.v|
    ensures b.v[k].addr in taken && ctx.img.decode(b.v[k].addr, fn.mode) == Some(b.v[k]) && OpFits(b.v[k])
  {
    assert b.v[k] in b.v;
  }

  lemma TakenHasPlace(ctx: Context, fn: Func, b: Body, taken: set<nat>, a: nat) returns (k: nat)
    requires WholeBody(ctx, fn, b, taken) && a in taken
    ensures k < |b.v| && b.v[k].addr == a
  {
    PlacedIsTaken(ctx.img, fn, b.v, taken, a);
    k :| 0 <= k < |b.v| && b.v[k].addr == a;
  }

  /** Falling through lands on the next instruction printed. */
  lemma FallsToNext(ctx: Context, fn: Func, b: Body, taken: set<nat>, k: nat)
    requires WholeBody(ctx, fn, b, taken) && k < |b.v| && CanFall(b.v[k])
    requires ctx.img.decode(b.v[k].addr, fn.mode).Some? ==> OrderlyAt(ctx.img, fn, b.v[k].addr)
    ensures k + 1 < |b.v| && b.v[k + 1].addr == b.v[k].addr + b.v[k].width
  {
    hide Takes, Reaches, Lists;
    BodyInsn(ctx, fn, b, taken, k);
    var a, next := b.v[k].addr, b.v[k].addr + b.v[k].width;
    FallEdge(ctx.img, fn, a);
    ReachesNext(ctx.img, fn, a, next);
    var j := TakenHasPlace(ctx, fn, b, taken, next);
    assert b.v[k].width > 0;
    assert j > k;
    BodyInsn(ctx, fn, b, taken, k + 1);
    assert b.v[k + 1].addr >= next;
  }

  lemma FallEdge(img: Image, fn: Func, a: nat)
    requires Takes(img, fn, a) && CanFall(img.decode(a, fn.mode).value)
    ensures Edge(img, fn, a, a + img.decode(a, fn.mode).value.width)
  {
  }

  lemma LabelsAreComplete(ctx: Context, fn: Func, b: Body, taken: set<nat>, k: nat)
    requires WholeBody(ctx, fn, b, taken) && k < |b.v|
    ensures LabelsComplete(ctx.img, fn, b.v[k], b.labels)
  {
    hide Takes, Reaches, Lists;
    BodyInsn(ctx, fn, b, taken, k);
    var i := b.v[k];
    if i.cls == Branch && i.target.Some? {
      var t := i.target.value;
      if Local(ctx.img, fn, t) {
        BoundOfTakes(ctx.img, fn, t);
        assert BranchesTo(ctx.img, fn, i.addr, t);
        assert Edge(ctx.img, fn, i.addr, t);
        ReachesNext(ctx.img, fn, i.addr, t);
      }
    }
  }

  lemma BoundOfTakes(img: Image, fn: Func, a: nat)
    requires Takes(img, fn, a)
    ensures a < fn.Bound()
  {
  }

  lemma JumpLands(ctx: Context, fn: Func, b: Body, taken: set<nat>, t: nat) returns (j: nat)
    requires WholeBody(ctx, fn, b, taken) && t in b.labels
    ensures j < |b.v| && b.v[j].addr == t
    ensures LabelLineOf(Lines(ctx, b.labels, b.v, |b.v|), t, 0) == |Lines(ctx, b.labels, b.v, j)|
  {
    hide Lines, Lists, Takes, Reaches, OpFits;
    j := TakenHasPlace(ctx, fn, b, taken, t);
    LabelPlaced(ctx, b.labels, b.v, j);
  }

  /** Past its label, the next statement is the instruction's own, and its successor's
      lines come after it. */
  lemma InsnStatement(ctx: Context, labels: seq<nat>, v: seq<Insn>, k: nat)
    requires k < |v| && forall i :: i in v ==> OpFits(i)
    ensures var lines := Lines(ctx, labels, v, |v|);
            var (test, act) := Translate(v[k], ctx.Lookup(v[k], labels));
            var q := StatementFrom(lines, |Lines(ctx, labels, v, k)|);
            && q < |lines| && lines[q] == Stmt(v[k].addr, test, act)
            && q + 1 == |Lines(ctx, labels, v, k + 1)|
  {
    hide Lines, Translate, StatementFrom;
    LinesAt(ctx, labels, v, k);
    var lines, at := Lines(ctx, labels, v, |v|), |Lines(ctx, labels, v, k)|;
    var mine := InsnLines(ctx, labels, v[k]);
    assert forall j :: 0 <= j < |mine| ==> lines[at + j] == mine[j];
    SkipLabel(lines, at);
    if |mine| == 2 {
      assert lines[at] == mine[0] && lines[at + 1] == mine[1];
      SkipLabel(lines, at + 1);
    } else {
      assert lines[at] == mine[0];
    }
  }

  lemma SkipLabel(lines: seq<Line>, q: nat)
    requires q < |lines|
    ensures StatementFrom(lines, q) == if lines[q].Stmt? then q else StatementFrom(lines, q + 1)
  {
  }

  // ----- entering a function

  lemma {:induction false} FirstLines(defs: seq<Def>, k: nat)
    requires k < |defs| && forall j :: 0 <= j < k ==> defs[j].addr != defs[k].addr
    ensures BodyLines(defs, defs[k].addr) == defs[k].lines
    decreases k
  {
    if k > 0 {
      FirstLines(defs[1..], k - 1);
    }
  }

  lemma DefinedLines(defs: seq<Def>, d: Def)
    requires d in defs && DefinedOnce(defs, d.addr)
    ensures BodyLines(defs, d.addr) == d.lines
  {
    hide BodyLines;
    var k :| 0 <= k < |defs| && defs[k] == d;
    FirstLines(defs, k);
  }

  /** A function begins with the statement of its entry. */
  lemma EntryStands(p: Program, f: nat)
    requires Built(p) && f in p.ctx.funcs
    ensures Level(p, Frame(f, 0), Frame(f, f))
  {
    hide Takes, Reaches, IsBody, Image.Decodes, Fits, OpFits, Lines, DefinedOnce, BodyLines;
    var fn := FuncAt(p.funcs, f);
    if Whole(p, fn) {
      var d :| d in p.out.defs && d.addr == f && Prints(p.ctx, fn, d.lines);
      DefinedLines(p.out.defs, d);
      var b, taken :| Collected(p.ctx.img, fn, b, taken) && (forall i :: i in b.v ==> OpFits(i))
                      && d.lines == Lines(p.ctx, b.labels, b.v, |b.v|);
      NoLines(p.ctx, b);
      assert Stands(p, fn, b, taken, 0, 0, f);
    }
  }

  lemma NoLines(ctx: Context, b: Body)
    requires forall i :: i in b.v ==> OpFits(i)
    ensures Lines(ctx, b.labels, b.v, 0) == []
  {
  }

  // ----- one step

  /** A statement that is sure goes on only where flow falls through, jumps only to a
      local target, and enters only functions of the module. */
  lemma SureStep<S(!new)>(ctx: Context, fn: Func, m: Machine<S>, r: (S, S) -> bool, i: Insn, s': S, s: S)
    requires OpFits(i) && m.Sane() && SureWithin(ctx, fn, m, r, i, s) && r(s', s)
    ensures var e := Step(ctx, fn, m, i, s);
            && (e.Next? || e.Enter? ==> CanFall(i))
            && (e.Jump? ==> i.cls == Branch && i.target == Some(e.l) && Local(ctx.img, fn, e.l))
            && (e.Enter? ==> Enterable(ctx, e.callee))
            && (e.Leave? && e.exit.To? ==> Enterable(ctx, e.exit.callee))
  {
    hide Local, UnderIt;
    assert m.cond(14, s);
  }

  predicate Enterable(ctx: Context, callee: Callee) {
    callee.Function? ==> callee.f in ctx.funcs
  }

  lemma LevelWith(p: Program, ps: seq<Frame>, ds: seq<Frame>, f: Frame, g: Frame)
    requires Built(p) && AllLevel(p, ps, ds) && Level(p, f, g)
    ensures AllLevel(p, ps + [f], ds + [g])
  {
    hide Level;
  }

  lemma GoMatches<S(!new)>(p: Program, m: Machine<S>, r: (S, S) -> bool, ps: seq<Frame>, ds: seq<Frame>,
                           callee: Callee, s': S, s: S)
    requires Built(p) && AllLevel(p, ps, ds) && Enterable(p.ctx, callee) && r(s', s) && Shared(m, r)
    ensures Matches(p, r, Go(m, ps, true, callee, s'), Go(m, ds, false, callee, s))
  {
    hide Level, Built;
    if callee.Function? {
      EntryStands(p, callee.f);
      LevelWith(p, ps, ds, Frame(callee.f, 0), Frame(callee.f, callee.f));
    }
  }

  lemma AfterMatches<S(!new)>(p: Program, m: Machine<S>, r: (S, S) -> bool, ps: seq<Frame>, ds: seq<Frame>, fn: nat,
                              q: nat, a: nat, land: nat, e: Effect<S>, e': Effect<S>)
    requires Built(p) && AllLevel(p, ps, ds) && Alike(r, e, e') && Shared(m, r) && !e.Stop?
    requires e.Next? || e.Enter? ==> Level(p, Frame(fn, q), Frame(fn, a))
    requires e.Jump? ==> Level(p, Frame(fn, land), Frame(fn, e.l))
    requires e.Enter? ==> Enterable(p.ctx, e.callee)
    requires e.Leave? && e.exit.To? ==> Enterable(p.ctx, e.exit.callee)
    ensures Matches(p, r, After(m, ps, fn, q, land, true, e),
                    After(m, ds, fn, a, if e'.Jump? then e'.l else 0, false, e'))
  {
    hide Level, Built, Go, Shared;
    match e
    case Next(_) => LevelWith(p, ps, ds, Frame(fn, q), Frame(fn, a));
    case Jump(l, _) => LevelWith(p, ps, ds, Frame(fn, land), Frame(fn, l));
    case Enter(callee, s) =>
      LevelWith(p, ps, ds, Frame(fn, q), Frame(fn, a));
      GoMatches(p, m, r, ps + [Frame(fn, q)], ds + [Frame(fn, a)], callee, s, e'.s);
    case Leave(ToCaller, _) =>
    case Leave(To(callee), s) => GoMatches(p, m, r, ps, ds, callee, s, e'.s);
  }

  lemma LevelAt(p: Program, fn: Func, b: Body, taken: set<nat>, k: nat, q: nat, a: nat)
    requires Built(p) && fn.addr in p.ctx.funcs && fn == FuncAt(p.funcs, fn.addr) && Whole(p, fn)
    requires Stands(p, fn, b, taken, k, q, a)
    ensures Level(p, Frame(fn.addr, q), Frame(fn.addr, a))
  {
    hide Stands, Whole;
  }

  /** The frames that follow an instruction's are level again. */
  lemma StandsOn<S(!new)>(p: Program, m: Machine<S>, r: (S, S) -> bool, fn: Func, b: Body, taken: set<nat>, k: nat,
                          q: nat, a: nat, s': S, s: S)
    requires Built(p) && fn.addr in p.ctx.funcs && fn == FuncAt(p.funcs, fn.addr) && Whole(p, fn)
    requires Stands(p, fn, b, taken, k, q, a) && m.Sane()
    requires p.ctx.img.decode(a, fn.mode) == Some(b.v[k]) && OpFits(b.v[k]) && r(s', s)
    requires SureWithin(p.ctx, fn, m, r, b.v[k], s) && OrderlyAt(p.ctx.img, fn, a)
    ensures var e, lines := Step(p.ctx, fn, m, b.v[k], s), Lines(p.ctx, b.labels, b.v, |b.v|);
            && (e.Next? || e.Enter? ==>
                  Level(p, Frame(fn.addr, |Lines(p.ctx, b.labels, b.v, k + 1)|), Frame(fn.addr, a + b.v[k].width)))
            && (e.Jump? ==> Level(p, Frame(fn.addr, LabelLineOf(lines, e.l, 0)), Frame(fn.addr, e.l)))
  {
    hide Whole, SureWithin, Step, OrderlyAt, CanFall, Local, LabelLineOf;
    hide Level, Lines, OpFits, IsBody, FuncAt, BodyLines;
    hide Image.Decodes, Takes, Reaches, Binds, DefinedOnce;
    var e := Step(p.ctx, fn, m, b.v[k], s);
    SureStep(p.ctx, fn, m, r, b.v[k], s', s);
    if e.Next? || e.Enter? {
      FallsToNext(p.ctx, fn, b, taken, k);
      LevelAt(p, fn, b, taken, k + 1, |Lines(p.ctx, b.labels, b.v, k + 1)|, a + b.v[k].width);
    } else if e.Jump? {
      LabelsAreComplete(p.ctx, fn, b, taken, k);
      var j := JumpLands(p.ctx, fn, b, taken, e.l);
      LevelAt(p, fn, b, taken, j, |Lines(p.ctx, b.labels, b.v, j)|, e.l);
    }
  }

  /** What the printed program does next, when its frame is level with the decoded one in
      a function printed whole: the statement of the decoded instruction. */
  lemma NextStatement<S(!new)>(p: Program, m: Machine<S>, c: Config<S>, fn: Func, b: Body, taken: set<nat>,
                               k: nat, a: nat)
    requires c.Running? && c.stack != [] && c.stack[|c.stack| - 1].fn == fn.addr
    requires Stands(p, fn, b, taken, k, c.stack[|c.stack| - 1].at, a) && OpFits(b.v[k])
    ensures var e, lines := Printed(p.ctx, p.out.table, b.labels, m, b.v[k], c.s), Lines(p.ctx, b.labels, b.v, |b.v|);
            PrintedStep(p.out, m, c)
            == After(m, c.stack[..|c.stack| - 1], fn.addr, |Lines(p.ctx, b.labels, b.v, k + 1)|,
                     if e.Jump? then LabelLineOf(lines, e.l, 0) else 0, true, e)
  {
    hide Lines, Translate, StatementFrom, LabelLineOf, BodyLines, IsBody, Takes, Reaches, Outcome, After;
    InsnStatement(p.ctx, b.labels, b.v, k);
  }

  /** As long as the decoded program does not deviate, the printed one keeps up with it. */
  lemma StepMatches<S(!new)>(p: Program, m: Machine<S>, r: (S, S) -> bool, c: Config<S>, d: Config<S>)
    requires Built(p) && m.Sane() && Shared(m, r) && Matches(p, r, c, d) && !Deviates(p, m, r, d)
    ensures Matches(p, r, PrintedStep(p.out, m, c), DecodedStep(p, m, d))
  {
    hide PrintedStep, After, Stands, SureWithin, OrderlyAt, Step, Lines, Whole, Printed, LabelLineOf, OpFits;
    hide Image.Decodes, Binds, DefinedOnce, Shared;
    if c.Running? {
      var n := |c.stack| - 1;
      var fn, a := FuncAt(p.funcs, d.stack[n].fn), d.stack[n].at;
      assert Level(p, c.stack[n], d.stack[n]);
      var b, taken, k: nat :| Stands(p, fn, b, taken, k, c.stack[n].at, a);
      StandsInsn(p, fn, b, taken, k, c.stack[n].at, a);
      NextStatement(p, m, c, fn, b, taken, k, a);
      StatementFollows(p.ctx, fn, p.out.table, b.labels, m, r, b.v[k], c.s, d.s);
      StandsOn(p, m, r, fn, b, taken, k, c.stack[n].at, a, c.s, d.s);
      SureStep(p.ctx, fn, m, r, b.v[k], c.s, d.s);
      var e := Printed(p.ctx, p.out.table, b.labels, m, b.v[k], c.s);
      AfterMatches(p, m, r, c.stack[..n], d.stack[..n], fn.addr, |Lines(p.ctx, b.labels, b.v, k + 1)|, a + b.v[k].width,
                   if e.Jump? then LabelLineOf(Lines(p.ctx, b.labels, b.v, |b.v|), e.l, 0) else 0,
                   e, Step(p.ctx, fn, m, b.v[k], d.s));
    } else {
      StepEnds(p, m, c);
      StepEnds(p, m, d);
    }
  }

  lemma StepEnds<S(!new)>(p: Program, m: Machine<S>, c: Config<S>)
    requires Built(p) && !c.Running?
    ensures PrintedStep(p.out, m, c) == c == DecodedStep(p, m, c)
  {
  }

  lemma StandsInsn(p: Program, fn: Func, b: Body, taken: set<nat>, k: nat, q: nat, a: nat)
    requires Stands(p, fn, b, taken, k, q, a)
    ensures k < |b.v| && b.v[k].addr == a && p.ctx.img.decode(a, fn.mode) == Some(b.v[k]) && OpFits(b.v[k])
    ensures LabelsComplete(p.ctx.img, fn, b.v[k], b.labels) && forall i :: i in b.v ==> OpFits(i)
  {
    hide OpFits, LabelsComplete;
    BodyInsn(p.ctx, fn, b, taken, k);
    LabelsAreComplete(p.ctx, fn, b, taken, k);
  }

  /** The printed module simulates the functions it was printed from, up to any relation of
      states that firmware keeps: started in any function, on any machine, it is after any
      number of steps in a related state, at the same places of the same functions, or at
      the same end, unless the decoded program came to an instruction whose statement is
      not sure within that relation before. */
  lemma {:induction false} ModuleFollows<S(!new)>(p: Program, m: Machine<S>, r: (S, S) -> bool, f: nat, s': S,
                                                    s: S, n: nat)
    requires Built(p) && m.Sane() && Shared(m, r) && f in p.ctx.funcs && r(s', s)
    requires forall k: nat :: k < n ==> !Deviates(p, m, r, DecodedRun(p, m, f, s, k))
    ensures Matches(p, r, PrintedRun(p, m, f, s', n), DecodedRun(p, m, f, s, n))
  {
    hide Built, Deviates, PrintedStep, DecodedStep, Level;
    if n == 0 {
      EntryStands(p, f);
    } else {
      ModuleFollows(p, m, r, f, s', s, n - 1);
      StepMatches(p, m, r, PrintedRun(p, m, f, s', n - 1), DecodedRun(p, m, f, s, n - 1));
    }
  }

  /** The same with nothing ignored: the states are equal as long as every statement the
      decoded program comes to is right. */
  lemma ModuleSimulates<S(!new)>(p: Program, m: Machine<S>, f: nat, s: S, n: nat)
    requires Built(p) && m.Sane() && f in p.ctx.funcs
    requires forall k: nat :: k < n ==> AtSure(p, m, DecodedRun(p, m, f, s, k))
    ensures Matches(p, Same(), PrintedRun(p, m, f, s, n), DecodedRun(p, m, f, s, n))
  {
    hide Built, PrintedRun, DecodedRun, Matches;
    forall k: nat | k < n ensures !Deviates(p, m, Same(), DecodedRun(p, m, f, s, k)) {
      SureDoesNotDeviate(p, m, DecodedRun(p, m, f, s, k));
    }
    ModuleFollows(p, m, Same(), f, s, s, n);
  }

  /** The decoded program is over, or at an instruction of a function printed whole, in
      order, whose statement is right here. */
  ghost predicate AtSure<S(!new)>(p: Program, m: Machine<S>, c: Config<S>)
    requires Built(p)
  {
    c.Running? && c.stack != [] && c.stack[|c.stack| - 1].fn in p.ctx.funcs ==>
      var fn, a := FuncAt(p.funcs, c.stack[|c.stack| - 1].fn), c.stack[|c.stack| - 1].at;
      && Whole(p, fn) && p.ctx.img.decode(a, fn.mode).Some?
      && OrderlyAt(p.ctx.img, fn, a) && Sure(p.ctx, fn, m, p.ctx.img.decode(a, fn.mode).value, c.s)
  }

  lemma SureDoesNotDeviate<S(!new)>(p: Program, m: Machine<S>, c: Config<S>)
    requires Built(p) && AtSure(p, m, c)
    ensures !Deviates(p, m, Same(), c)
  {
    hide Sure, SureWithin, Whole, OrderlyAt, Binds, DefinedOnce, OpFits;
    if Deviates(p, m, Same(), c) {
      var fn, a := FuncAt(p.funcs, c.stack[|c.stack| - 1].fn), c.stack[|c.stack| - 1].at;
      DecodedFits(p.ctx.img, a, fn.mode);
      SureIsWithin(p.ctx, fn, m, p.ctx.img.decode(a, fn.mode).value, c.s);
    }
  }

  lemma DecodedFits(img: Image, a: nat, mode: Mode)
    requires img.Decodes() && img.decode(a, mode).Some?
    ensures OpFits(img.decode(a, mode).value)
  {
  }

  // ----- calls

  /** `n` statements on from a configuration. */
  function PrintedSteps<S(!new)>(out: Output, m: Machine<S>, c: Config<S>, n: nat): Config<S>
    decreases n
  {
    if n == 0 then c else PrintedSteps(out, m, PrintedStep(out, m, c), n - 1)
  }

  /** The same with further frames below. */
  function Over<S>(below: seq<Frame>, c: Config<S>): Config<S> {
    match c
    case Running(stack, s) => Running(below + stack, s)
    case Finished(s) => if below == [] then Finished(s) else Running(below, s)
    case Halted(s) => Halted(s)
    case Lost(a, s) => Lost(a, s)
  }

  lemma GoOver<S(!new)>(m: Machine<S>, below: seq<Frame>, stack: seq<Frame>, callee: Callee, s: S)
    ensures Go(m, below + stack, true, callee, s) == Over(below, Go(m, stack, true, callee, s))
  {
    if callee.Function? {
      var f := Frame(callee.f, 0);
      assert below + (stack + [f]) == (below + stack) + [f];
    } else {
      assert below + [] == below;
    }
  }

  lemma AfterOver<S(!new)>(m: Machine<S>, below: seq<Frame>, rest: seq<Frame>, fn: nat, next: nat, land: nat,
                           e: Effect<S>)
    ensures After(m, below + rest, fn, next, land, true, e) == Over(below, After(m, rest, fn, next, land, true, e))
  {
    hide Go;
    assert below + (rest + [Frame(fn, next)]) == (below + rest) + [Frame(fn, next)];
    assert below + (rest + [Frame(fn, land)]) == (below + rest) + [Frame(fn, land)];
    match e
    case Enter(callee, s) => GoOver(m, below, rest + [Frame(fn, next)], callee, s);
    case Leave(To(callee), s) => GoOver(m, below, rest, callee, s);
    case Leave(ToCaller, _) => assert below + [] == below;
    case _ =>
  }

  lemma StepOver<S(!new)>(out: Output, m: Machine<S>, below: seq<Frame>, c: Config<S>)
    requires c.Running? && c.stack != []
    ensures PrintedStep(out, m, Over(below, c)) == Over(below, PrintedStep(out, m, c))
  {
    hide BodyLines, StatementFrom, Outcome, LabelLineOf, After;
    var k := |c.stack| - 1;
    var deep := below + c.stack;
    assert deep[|deep| - 1] == c.stack[k] && deep[..|deep| - 1] == below + c.stack[..k];
    var lines := BodyLines(out.defs, c.stack[k].fn);
    var q := StatementFrom(lines, c.stack[k].at);
    if q < |lines| {
      var e := Outcome(out.table, m, lines[q].test, lines[q].act, c.s);
      AfterOver(m, below, c.stack[..k], c.stack[k].fn, q + 1, if e.Jump? then LabelLineOf(lines, e.l, 0) else 0, e);
    } else {
      assert below + [] == below;
    }
  }

  /** What a function does does not depend on who called it; when it is done, its caller
      goes on. */
  lemma {:induction false} StepsOver<S(!new)>(out: Output, m: Machine<S>, below: seq<Frame>, c: Config<S>, n: nat)
    requires forall j: nat :: j < n ==> PrintedSteps(out, m, c, j).Running? && PrintedSteps(out, m, c, j).stack != []
    ensures PrintedSteps(out, m, Over(below, c), n) == Over(below, PrintedSteps(out, m, c, n))
    decreases n
  {
    hide PrintedStep, Over;
    if n > 0 {
      assert PrintedSteps(out, m, c, 0) == c;
      StepOver(out, m, below, c);
      forall j: nat | j < n - 1
        ensures PrintedSteps(out, m, PrintedStep(out, m, c), j) == PrintedSteps(out, m, c, j + 1)
      {
      }
      StepsOver(out, m, below, PrintedStep(out, m, c), n - 1);
    }
  }

  /** The statement at hand. */
  predicate At(out: Output, fn: nat, at: nat, q: nat, act: Action) {
    var lines := BodyLines(out.defs, fn);
    StatementFrom(lines, at) == q < |lines| && lines[q].test == Always && lines[q].act == act
  }

  /** A call of a function that by itself finishes in state `s'` after `n` steps goes on
      behind the call, in that state, after one more; a tail call goes on in the caller; a
      call of an import goes on at once. */
  lemma CallRuns<S(!new)>(out: Output, m: Machine<S>, rest: seq<Frame>, fn: nat, at: nat, q: nat, f: nat, s: S, n: nat,
                          s': S)
    requires forall j: nat :: j < n ==> PrintedSteps(out, m, Running([Frame(f, 0)], s), j).Running?
                                        && PrintedSteps(out, m, Running([Frame(f, 0)], s), j).stack != []
    requires PrintedSteps(out, m, Running([Frame(f, 0)], s), n) == Finished(s')
    ensures At(out, fn, at, q, CallFunc(f)) ==>
              PrintedSteps(out, m, Running(rest + [Frame(fn, at)], s), n + 1) == Running(rest + [Frame(fn, q + 1)], s')
    ensures At(out, fn, at, q, TailFunc(f)) ==>
              PrintedSteps(out, m, Running(rest + [Frame(fn, at)], s), n + 1)
              == if rest == [] then Finished(s') else Running(rest, s')
  {
    hide BodyLines, StatementFrom, LabelLineOf;
    var c := Running(rest + [Frame(fn, at)], s);
    assert c.stack[..|c.stack| - 1] == rest;
    if At(out, fn, at, q, CallFunc(f)) {
      assert PrintedStep(out, m, c) == Over(rest + [Frame(fn, q + 1)], Running([Frame(f, 0)], s));
      StepsOver(out, m, rest + [Frame(fn, q + 1)], Running([Frame(f, 0)], s), n);
    }
    if At(out, fn, at, q, TailFunc(f)) {
      assert PrintedStep(out, m, c) == Over(rest, Running([Frame(f, 0)], s));
      StepsOver(out, m, rest, Running([Frame(f, 0)], s), n);
    }
  }

  lemma ImportRuns<S(!new)>(out: Output, m: Machine<S>, rest: seq<Frame>, fn: nat, at: nat, q: nat, f: nat, s: S)
    ensures At(out, fn, at, q, CallImport(f)) ==>
              PrintedStep(out, m, Running(rest + [Frame(fn, at)], s))
              == Running(rest + [Frame(fn, q + 1)], m.hle(ClearThumb(f), s))
    ensures At(out, fn, at, q, TailImport(f)) ==>
              PrintedStep(out, m, Running(rest + [Frame(fn, at)], s))
              == if rest == [] then Finished(m.hle(ClearThumb(f), s)) else Running(rest, m.hle(ClearThumb(f), s))
    ensures At(out, fn, at, q, Trap) ==> PrintedStep(out, m, Running(rest + [Frame(fn, at)], s)) == Halted(s)
    ensures At(out, fn, at, q, Ret) ==>
              PrintedStep(out, m, Running(rest + [Frame(fn, at)], s))
              == if rest == [] then Finished(s) else Running(rest, s)
  {
    hide BodyLines, StatementFrom, LabelLineOf, ClearThumb;
    var c := Running(rest + [Frame(fn, at)], s);
    assert c.stack[..|c.stack| - 1] == rest;
  }

  /** A function left out under the limit halts where it is entered. */
  lemma LeftOutHalts<S(!new)>(p: Program, m: Machine<S>, rest: seq<Frame>, f: Func, s: S)
    requires NotEmitted(f) in p.out.defs && DefinedOnce(p.out.defs, f.addr)
    ensures PrintedStep(p.out, m, Running(rest + [Frame(f.addr, 0)], s)) == Halted(s)
  {
    DefinedLines(p.out.defs, NotEmitted(f));
    assert At(p.out, f.addr, 0, 0, Trap);
    ImportRuns(p.out, m, rest, f.addr, 0, 0, 0, s);
  }
}
