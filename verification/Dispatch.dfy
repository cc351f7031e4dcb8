/** The dispatch table: merged from functions and import stubs at emit time (emit.c),
    checked and searched at run time (dispatch.c). */
module Dispatch {
  import opened Code
  import opened Search
  import opened Emit

  datatype Symbol = Fn(a: nat) | Imp(a: nat)

  /** `vita_dispatch_entry`. */
  datatype Entry = Entry(addr: nat, sym: Symbol)

  /** What an address means: the stub there, else the function there, else nothing. */
  function Binding(funcs: seq<nat>, stubs: seq<nat>, a: nat): Option<Symbol> {
    if a in stubs then Some(Imp(a)) else if a in funcs then Some(Fn(a)) else None
  }

  predicate Ascends(table: seq<Entry>) {
    forall i, j :: 0 <= i < j < |table| ==> table[i].addr < table[j].addr
  }

  ghost predicate Has(table: seq<Entry>, a: nat) {
    exists i :: 0 <= i < |table| && table[i].addr == a
  }

  /** The table binds exactly the functions and stubs, each address once and in order. */
  ghost predicate Binds(table: seq<Entry>, funcs: seq<nat>, stubs: seq<nat>) {
    && Ascends(table)
    && (forall i :: 0 <= i < |table| ==> Binding(funcs, stubs, table[i].addr) == Some(table[i].sym))
    && (forall a :: a in funcs || a in stubs ==> Has(table, a))
  }

  // ----- the merge

  /** Merge progress: everything before the cursors is in the table, everything after
      them is above it. */
  ghost predicate Merging(table: seq<Entry>, funcs: seq<nat>, stubs: seq<nat>, f: nat, s: nat)
    requires f <= |funcs| && s <= |stubs|
  {
    && Ascends(table)
    && (forall i :: 0 <= i < |table| ==> Binding(funcs, stubs, table[i].addr) == Some(table[i].sym))
    && (forall k :: 0 <= k < f ==> Has(table, funcs[k]))
    && (forall k :: 0 <= k < s ==> Has(table, stubs[k]))
    && (forall i, k :: 0 <= i < |table| && f <= k < |funcs| ==> table[i].addr < funcs[k])
    && (forall i, k :: 0 <= i < |table| && s <= k < |stubs| ==> table[i].addr < stubs[k])
  }

  /** Appending the least remaining address keeps the merge going. */
  lemma MergeStep(table: seq<Entry>, funcs: seq<nat>, stubs: seq<nat>, f: nat, s: nat, f': nat, s': nat, e: Entry)
    requires Sorted(funcs) && Sorted(stubs) && f <= f' <= |funcs| && s <= s' <= |stubs|
    requires Merging(table, funcs, stubs, f, s) && Binding(funcs, stubs, e.addr) == Some(e.sym)
    requires f' == (if f < |funcs| && funcs[f] == e.addr then f + 1 else f)
    requires s' == (if s < |stubs| && stubs[s] == e.addr then s + 1 else s)
    requires f' > f || s' > s
    requires f < |funcs| ==> e.addr <= funcs[f]
    requires s < |stubs| ==> e.addr <= stubs[s]
    ensures Merging(table + [e], funcs, stubs, f', s')
  {
    hide Binding;
    var t := table + [e];
    forall a | Has(table, a) || a == e.addr ensures Has(t, a) {
      if Has(table, a) {
        var i :| 0 <= i < |table| && table[i].addr == a;
        assert t[i].addr == a;
      } else {
        assert t[|table|].addr == a;
      }
    }
  }

  lemma MergeStart(funcs: seq<nat>, stubs: seq<nat>)
    ensures Merging([], funcs, stubs, 0, 0)
  {
  }

  /** A function address below every remaining stub is no stub at all. */
  lemma NotAStub(table: seq<Entry>, funcs: seq<nat>, stubs: seq<nat>, f: nat, s: nat)
    requires Sorted(stubs) && f < |funcs| && s <= |stubs| && Merging(table, funcs, stubs, f, s)
    requires s < |stubs| ==> funcs[f] < stubs[s]
    ensures funcs[f] !in stubs
  {
    hide Binding;
    forall k | 0 <= k < |stubs| ensures stubs[k] != funcs[f] {
      if k < s {
        var i :| 0 <= i < |table| && table[i].addr == stubs[k];
      }
    }
  }

  /** How many functions are really import stubs. */
  function Shadowed(funcs: seq<nat>, stubs: seq<nat>, n: nat): (r: set<nat>)
    requires n <= |funcs|
  {
    set a | a in funcs[..n] && a in stubs
  }

  lemma ShadowedStep(funcs: seq<nat>, stubs: seq<nat>, n: nat)
    requires Sorted(funcs) && n < |funcs|
    ensures Shadowed(funcs, stubs, n + 1)
         == Shadowed(funcs, stubs, n) + if funcs[n] in stubs then {funcs[n]} else {}
    ensures funcs[n] !in Shadowed(funcs, stubs, n)
  {
    assert funcs[..n + 1] == funcs[..n] + [funcs[n]];
  }

  /** The merge loop of em_emit; an address in both lists goes to the stub, and is counted. */
  method Merge(funcs: seq<nat>, stubs: seq<nat>) returns (table: seq<Entry>, shadowed: nat)
    requires Sorted(funcs) && Sorted(stubs)
    ensures Binds(table, funcs, stubs)
    ensures shadowed == |Shadowed(funcs, stubs, |funcs|)|
  {
    hide Ascends, Has, Merging, Shadowed, Sorted;
    table, shadowed := [], 0;
    var f, s := 0, 0;
    MergeStart(funcs, stubs);
    ShadowedStart(funcs, stubs);
    while f < |funcs| || s < |stubs|
      invariant f <= |funcs| && s <= |stubs| && Merging(table, funcs, stubs, f, s)
      invariant shadowed == |Shadowed(funcs, stubs, f)|
      decreases |funcs| + |stubs| - f - s
    {
      var takeStub := f >= |funcs| || (s < |stubs| && stubs[s] <= funcs[f]);
      ghost var f0 := f;
      if f < |funcs| {
        ShadowedStep(funcs, stubs, f);
        if !takeStub {
          NotAStub(table, funcs, stubs, f, s);
        }
      }
      if takeStub && f < |funcs| && stubs[s] == funcs[f] {
        f := f + 1;
        shadowed := shadowed + 1;
      }
      if takeStub {
        MergeStep(table, funcs, stubs, f0, s, f, s + 1, Entry(stubs[s], Imp(stubs[s])));
        table := table + [Entry(stubs[s], Imp(stubs[s]))];
        s := s + 1;
      } else {
        MergeStep(table, funcs, stubs, f, s, f + 1, s, Entry(funcs[f], Fn(funcs[f])));
        table := table + [Entry(funcs[f], Fn(funcs[f]))];
        f := f + 1;
      }
    }
    MergeDone(table, funcs, stubs);
  }

  lemma ShadowedStart(funcs: seq<nat>, stubs: seq<nat>)
    ensures Shadowed(funcs, stubs, 0) == {}
  {
  }

  lemma MergeDone(table: seq<Entry>, funcs: seq<nat>, stubs: seq<nat>)
    requires Merging(table, funcs, stubs, |funcs|, |stubs|)
    ensures Binds(table, funcs, stubs)
  {
    hide Binding, Has;
  }

  // ----- the runtime

  /** The table's answer for an address. */
  ghost predicate Answers(table: seq<Entry>, a: nat, r: Option<Symbol>) {
    match r
    case Some(sym) => exists i :: 0 <= i < |table| && table[i] == Entry(a, sym)
    case None => !Has(table, a)
  }

  function Answer(table: seq<Entry>, a: nat): Option<Symbol> {
    if table == [] then None
    else if table[0].addr == a then Some(table[0].sym)
    else Answer(table[1..], a)
  }

  /** An ascending table has one answer. */
  lemma {:induction false} OneAnswer(table: seq<Entry>, a: nat, r: Option<Symbol>)
    requires Ascends(table) && Answers(table, a, r)
    ensures r == Answer(table, a)
  {
    if table != [] && table[0].addr != a {
      assert r.None? ==> forall k :: 0 <= k < |table[1..]| ==> table[1..][k] == table[k + 1];
      if r.Some? {
        var i :| 0 <= i < |table| && table[i] == Entry(a, r.value);
        assert table[1..][i - 1] == Entry(a, r.value);
      }
      OneAnswer(table[1..], a, r);
    } else if table != [] {
      assert Has(table, a);
    }
  }

  /** dispatch.c's globals. */
  class Dispatcher {
    var table: seq<Entry>
    var count: nat
    var hits: nat
    var misses: nat

    ghost predicate Valid()
      reads this
    {
      (count == |table| && Ascends(table)) || count == 0
    }

    /** `vita_dispatch_init`: an unsorted table is refused, not searched. */
    method Init(t: seq<Entry>)
      modifies this
      ensures Valid() && table == t && hits == 0 == misses
      ensures count == if Ascends(t) then |t| else 0
    {
      table, count, hits, misses := t, |t|, 0, 0;
      var i := 1;
      while i < |t|
        invariant 1 <= i && table == t && count == |t| && hits == 0 == misses
        invariant forall j, k :: 0 <= j < k < i && k < |t| ==> t[j].addr < t[k].addr
      {
        if t[i - 1].addr >= t[i].addr {
          count := 0;
          return;
        }
        i := i + 1;
      }
    }

    /** `vita_dispatch`: the symbol called, or `None` for a trap; one counter moves. */
    method Dispatch(addr: nat) returns (r: Option<Symbol>)
      requires Valid()
      modifies `hits, `misses
      ensures Valid() && r == Answer(table[..count], ClearThumb(addr))
      ensures r.Some? ==> hits == old(hits) + 1 && misses == old(misses)
      ensures r.None? ==> hits == old(hits) && misses == old(misses) + 1
    {
      var key := ClearThumb(addr);
      var lo, hi := 0, count;
      while lo < hi
        invariant 0 <= lo <= hi <= count <= |table|
        invariant forall i :: 0 <= i < count && table[i].addr == key ==> lo <= i < hi
      {
        var mid := lo + (hi - lo) / 2;
        if table[mid].addr == key {
          hits := hits + 1;
          assert table[..count][mid] == Entry(key, table[mid].sym);
          OneAnswer(table[..count], key, Some(table[mid].sym));
          return Some(table[mid].sym);
        }
        if table[mid].addr < key {
          lo := mid + 1;
        } else {
          hi := mid;
        }
      }
      misses := misses + 1;
      OneAnswer(table[..count], key, None);
      r := None;
    }
  }

  /** Dispatch end to end: a merged table is accepted, and every indirect transfer gets
      the binding of its address with the Thumb bit cleared. */
  method DispatchMerged(funcs: seq<nat>, stubs: seq<nat>, addrs: seq<nat>) returns (r: seq<Option<Symbol>>)
    requires Sorted(funcs) && Sorted(stubs)
    ensures |r| == |addrs|
    ensures forall k :: 0 <= k < |addrs| ==> r[k] == Binding(funcs, stubs, ClearThumb(addrs[k]))
  {
    hide Binding, ClearThumb, Ascends, Has, Sorted, Answer;
    var table, _ := Merge(funcs, stubs);
    var d := new Dispatcher;
    d.Init(table);
    r := [];
    for k := 0 to |addrs|
      invariant d.Valid() && d.table == table && d.count == |table| && |r| == k
      invariant forall j :: 0 <= j < k ==> r[j] == Binding(funcs, stubs, ClearThumb(addrs[j]))
    {
      var one := d.Dispatch(addrs[k]);
      assert table[..|table|] == table;
      AnswerIsBinding(table, funcs, stubs, ClearThumb(addrs[k]));
      r := r + [one];
    }
  }

  /** What a merged table answers is the binding of the address. */
  lemma AnswerIsBinding(table: seq<Entry>, funcs: seq<nat>, stubs: seq<nat>, a: nat)
    requires Binds(table, funcs, stubs)
    ensures Answer(table, a) == Binding(funcs, stubs, a)
  {
    if i: nat :| i < |table| && table[i].addr == a {
      assert table[i] == Entry(a, table[i].sym);
      OneAnswer(table, a, Some(table[i].sym));
    } else {
      OneAnswer(table, a, None);
    }
  }

  /** A direct call was bound at emit time as the table binds its target at run time. */
  lemma DirectCallsAgree(ctx: Context, labels: seq<nat>, i: Insn)
    requires OpFits(i) && i.cls == Call && i.target.Some? && i.target.value % 2 == 0
    ensures var t := i.target.value;
            Translate(i, ctx.Lookup(i, labels)) ==
            (Always, match Binding(ctx.funcs, ctx.stubs, t)
                     case Some(Imp(a)) => CallImport(a)
                     case Some(Fn(a)) => CallFunc(a)
                     case None => Trap)
  {
  }
}
