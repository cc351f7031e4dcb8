/** em_emit: a whole module of C, every symbol it uses defined exactly once. */
module Module {
  import opened Code
  import opened Search
  import opened Limits
  import opened Collect
  import opened Emit
  import opened Dispatch

  /** `void vita_func_<addr>(void)` and its body. */
  datatype Def = Def(addr: nat, lines: seq<Line>)

  datatype Output = Output(defs: seq<Def>, table: seq<Entry>)

  function FuncAddrs(funcs: seq<Func>): (r: seq<nat>)
    ensures |r| == |funcs| && forall k :: 0 <= k < |funcs| ==> r[k] == funcs[k].addr
  {
    seq(|funcs|, k requires 0 <= k < |funcs| => funcs[k].addr)
  }

  /** The stub printed for a function left out under a limit. */
  function NotEmitted(f: Func): Def {
    Def(f.addr, [Stmt(f.addr, Always, Trap)])
  }

  ghost predicate DefinedOnce(defs: seq<Def>, a: nat) {
    exists k :: 0 <= k < |defs| && defs[k].addr == a && forall j :: 0 <= j < |defs| && defs[j].addr == a ==> j == k
  }

  /** A body with no loose ends: its gotos land on one label each, its calls name
      functions of the module or its imports. */
  ghost predicate Sound(ctx: Context, lines: seq<Line>) {
    forall q :: 0 <= q < |lines| && lines[q].Stmt? ==>
      CallKnown(ctx, lines[q]) && (lines[q].act.Goto? ==> PlacedOnce(lines, lines[q].act.l))
  }

  lemma BodySound(ctx: Context, fn: Func, b: Body, taken: set<nat>)
    requires ctx.img.Decodes() && IsBody(ctx.img, fn, b, taken) && forall i :: i in b.v ==> OpFits(i)
    ensures Sound(ctx, Lines(ctx, b.labels, b.v, |b.v|))
  {
    hide IsBody, PlacedOnce, CallKnown, Lines, OpFits;
    GotosLand(ctx, ctx.img, fn, b, taken);
    CallsKnown(ctx, b.labels, b.v);
  }

  lemma InsnsFit(img: Image, fn: Func, b: Body, taken: set<nat>)
    requires img.Decodes() && IsBody(img, fn, b, taken)
    ensures forall i :: i in b.v ==> OpFits(i)
  {
    hide OpFits;
  }

  /** `lines` is what em_emit prints for `fn`. */
  ghost predicate Prints(ctx: Context, fn: Func, lines: seq<Line>) {
    exists b, taken :: Collected(ctx.img, fn, b, taken) && (forall i :: i in b.v ==> OpFits(i))
                       && lines == Lines(ctx, b.labels, b.v, |b.v|)
  }

  /** Collects and prints one function. */
  method EmitFunction(ctx: Context, fn: Func) returns (d: Def)
    requires ctx.img.Decodes() && Sorted(ctx.stubs) && Sorted(ctx.funcs)
    ensures d.addr == fn.addr && Sound(ctx, d.lines) && Prints(ctx, fn, d.lines)
  {
    hide IsBody, Takes, Reaches, OpFits, Sound, Image.Decodes, Sorted, Fits, Lines;
    var b := CollectBody(ctx.img, fn);
    ghost var taken :| Collected(ctx.img, fn, b, taken);
    InsnsFit(ctx.img, fn, b, taken);
    BodySound(ctx, fn, b, taken);
    var lines := EmitBody(ctx, b);
    d := Def(fn.addr, lines);
  }

  lemma DefsOnce(defs: seq<Def>, order: seq<nat>, a: nat)
    requires |defs| == |order| && Distinct(order) && a in order
    requires forall k :: 0 <= k < |defs| ==> defs[k].addr == order[k]
    ensures DefinedOnce(defs, a)
  {
    var k :| 0 <= k < |order| && order[k] == a;
    forall j | 0 <= j < |defs| && defs[j].addr == a ensures j == k {
      assert order[j] == order[k];
    }
  }

  /** The definition loops of em_emit: trapping stubs for the functions past the limit
      first, then the bodies. */
  method EmitDefs(ctx: Context, funcs: seq<Func>, n: nat) returns (defs: seq<Def>)
    requires ctx.img.Decodes() && Sorted(ctx.stubs) && Sorted(ctx.funcs) && n <= |funcs|
    ensures |defs| == |funcs|
    ensures forall k :: 0 <= k < |defs| ==> Sound(ctx, defs[k].lines)
    ensures forall k :: 0 <= k < |defs| ==> defs[k].addr == (funcs[n..] + funcs[..n])[k].addr
    ensures forall k :: 0 <= k < n ==> Prints(ctx, funcs[k], defs[|funcs| - n + k].lines)
    ensures forall k :: n <= k < |funcs| ==> defs[k - n] == NotEmitted(funcs[k])
  {
    hide Sound, Image.Decodes, Sorted, Prints;
    defs := [];
    for k := n to |funcs|
      invariant |defs| == k - n
      invariant forall j :: 0 <= j < |defs| ==> Sound(ctx, defs[j].lines) && defs[j] == NotEmitted(funcs[n + j])
    {
      TrapSound(ctx, funcs[k]);
      defs := defs + [NotEmitted(funcs[k])];
    }
    var first := |defs|;
    for k := 0 to n
      invariant |defs| == first + k
      invariant forall j :: 0 <= j < |defs| ==>
                  Sound(ctx, defs[j].lines) && defs[j].addr == (funcs[n..] + funcs[..n])[j].addr
      invariant forall j :: 0 <= j < first ==> defs[j] == NotEmitted(funcs[n + j])
      invariant forall j :: 0 <= j < k ==> Prints(ctx, funcs[j], defs[first + j].lines)
    {
      var d := EmitFunction(ctx, funcs[k]);
      defs := defs + [d];
    }
  }

  /** A function left out is one trap under its own name. */
  lemma NotEmittedIs(f: Func)
    ensures NotEmitted(f).addr == f.addr && NotEmitted(f).lines == [Stmt(f.addr, Always, Trap)]
  {
  }

  lemma TrapSound(ctx: Context, f: Func)
    ensures Sound(ctx, NotEmitted(f).lines)
  {
  }

  /** A limit of zero is none. */
  function Emitted(funcs: seq<Func>, limit: nat): (r: nat)
    ensures r <= |funcs| && (r < |funcs| ==> r == limit > 0)
  {
    if limit != 0 && limit < |funcs| then limit else |funcs|
  }

  /** The module defines the function as its printed body. */
  ghost predicate Emits(ctx: Context, out: Output, f: Func) {
    exists d :: d in out.defs && d.addr == f.addr && Prints(ctx, f, d.lines)
  }

  /** A module and what it was printed from. */
  datatype Program = Program(ctx: Context, funcs: seq<Func>, out: Output)

  /** Every function of the module is defined once, and the table binds functions and
      stubs. */
  ghost predicate Built(p: Program) {
    && p.ctx.img.Decodes() && Binds(p.out.table, p.ctx.funcs, p.ctx.stubs)
    && (forall a :: a in p.ctx.funcs <==> a in FuncAddrs(p.funcs))
    && forall f :: f in p.funcs ==> DefinedOnce(p.out.defs, f.addr)
  }

  /** `em_emit`. Whatever the limit and whatever limits the collection met: every
      function is defined exactly once, no body dangles, and the dispatch table binds
      exactly the functions and the stubs, to symbols that exist. The functions within
      the limit are defined as the printed bodies that simulate them. */
  method EmitModule(img: Image, funcs: seq<Func>, stubs: seq<nat>, limit: nat) returns (out: Output)
    requires img.Decodes() && Sorted(stubs) && Distinct(FuncAddrs(funcs))
    ensures forall f :: f in funcs ==> DefinedOnce(out.defs, f.addr)
    ensures var fs := SortAddrs(FuncAddrs(funcs));
            && (forall d :: d in out.defs ==> Sound(Context(img, stubs, fs), d.lines))
            && Binds(out.table, fs, stubs) && Built(Program(Context(img, stubs, fs), funcs, out))
            && forall k :: 0 <= k < Emitted(funcs, limit) ==> Emits(Context(img, stubs, fs), out, funcs[k])
    ensures forall e :: e in out.table ==>
              match e.sym case Fn(a) => DefinedOnce(out.defs, a) case Imp(a) => a in stubs
  {
    hide Sound, Image.Decodes, Binds, DefinedOnce, Distinct, Sorted, Prints, Built, Emits;
    var n := |funcs|;
    if limit != 0 && limit < n {
      n := limit;
    }
    var fs := SortAddrs(FuncAddrs(funcs));
    SortAddrsKeeps(FuncAddrs(funcs));
    var ctx := Context(img, stubs, fs);
    var defs := EmitDefs(ctx, funcs, n);
    var table, _ := Merge(fs, stubs);
    EveryFunctionOnce(defs, funcs, n);
    TableSymbolsExist(table, funcs, fs, stubs, defs);
    out := Output(defs, table);
    ModuleBuilt(ctx, funcs, out);
    EmittedAreDefined(ctx, funcs, n, out);
  }

  lemma EmittedAreDefined(ctx: Context, funcs: seq<Func>, n: nat, out: Output)
    requires n <= |funcs| == |out.defs|
    requires forall k :: 0 <= k < |funcs| ==> out.defs[k].addr == (funcs[n..] + funcs[..n])[k].addr
    requires forall k :: 0 <= k < n ==> Prints(ctx, funcs[k], out.defs[|funcs| - n + k].lines)
    ensures forall k :: 0 <= k < n ==> Emits(ctx, out, funcs[k])
  {
    hide Prints;
    forall k | 0 <= k < n ensures Emits(ctx, out, funcs[k]) {
      var d := out.defs[|funcs| - n + k];
      assert d in out.defs && d.addr == (funcs[n..] + funcs[..n])[|funcs| - n + k].addr == funcs[k].addr;
    }
  }

  lemma ModuleBuilt(ctx: Context, funcs: seq<Func>, out: Output)
    requires ctx.img.Decodes() && Binds(out.table, ctx.funcs, ctx.stubs)
    requires ctx.funcs == SortAddrs(FuncAddrs(funcs)) && forall f :: f in funcs ==> DefinedOnce(out.defs, f.addr)
    ensures Built(Program(ctx, funcs, out))
  {
    hide Image.Decodes, Binds, DefinedOnce, SortAddrs;
    SortAddrsKeeps(FuncAddrs(funcs));
  }

  lemma EveryFunctionOnce(defs: seq<Def>, funcs: seq<Func>, n: nat)
    requires n <= |funcs| == |defs| && Distinct(FuncAddrs(funcs))
    requires forall k :: 0 <= k < |defs| ==> defs[k].addr == (funcs[n..] + funcs[..n])[k].addr
    ensures forall f :: f in funcs ==> DefinedOnce(defs, f.addr)
  {
    hide DefinedOnce;
    var turned := funcs[n..] + funcs[..n];
    var order := FuncAddrs(turned);
    forall i, j | 0 <= i < j < |order| ensures order[i] != order[j] {
      var i' := if i < |funcs| - n then i + n else i - (|funcs| - n);
      var j' := if j < |funcs| - n then j + n else j - (|funcs| - n);
      assert order[i] == FuncAddrs(funcs)[i'] && order[j] == FuncAddrs(funcs)[j'];
    }
    forall f | f in funcs ensures DefinedOnce(defs, f.addr) {
      var k :| 0 <= k < |funcs| && funcs[k] == f;
      assert order[if k >= n then k - n else k + (|funcs| - n)] == f.addr;
      DefsOnce(defs, order, f.addr);
    }
  }

  lemma TableSymbolsExist(table: seq<Entry>, funcs: seq<Func>, fs: seq<nat>, stubs: seq<nat>, defs: seq<Def>)
    requires Binds(table, fs, stubs) && (forall f :: f in funcs ==> DefinedOnce(defs, f.addr))
    requires forall a :: a in fs <==> a in FuncAddrs(funcs)
    ensures forall e :: e in table ==>
              match e.sym case Fn(a) => DefinedOnce(defs, a) case Imp(a) => a in stubs
  {
    hide DefinedOnce, Has;
    forall e | e in table ensures match e.sym case Fn(a) => DefinedOnce(defs, a) case Imp(a) => a in stubs {
      var k :| 0 <= k < |table| && table[k] == e;
      assert Binding(fs, stubs, table[k].addr) == Some(e.sym);
      if e.sym.Fn? {
        var j :| 0 <= j < |funcs| && FuncAddrs(funcs)[j] == e.sym.a;
        assert funcs[j] in funcs;
      }
    }
  }
}
