/** Collecting one function's body by following its control flow (emit.c). */
module Collect {
  import opened Code
  import opened Visited
  import opened Limits
  import opened Search

  const MAX_INSNS: nat := 65536

  /** What holds between any two turns of the walk: `taken` is what was collected,
      `seen` what was marked, `pending` the block starts still to be walked, and
      `limited` tells whether the visited table or the block stack ever filled up. */
  ghost predicate Walking(img: Image, fn: Func, taken: set<nat>, seen: set<nat>, pending: seq<nat>, limited: bool) {
    && (forall a :: a in taken ==> a in seen && Takes(img, fn, a) && Reaches(img, fn, a))
    && (forall a :: a in seen && Takes(img, fn, a) ==> a in taken)
    && (forall p :: p in pending ==> Reaches(img, fn, p))
    && (limited || Closed(img, fn, taken, pending))
  }

  /** Every successor that can be taken has been taken or is waiting, the entry included. */
  ghost predicate Closed(img: Image, fn: Func, taken: set<nat>, pending: seq<nat>) {
    && (Takes(img, fn, fn.addr) ==> fn.addr in taken || fn.addr in pending)
    && (forall a, b :: a in taken && Edge(img, fn, a, b) && Takes(img, fn, b) ==> b in taken || b in pending)
  }

  /** A waiting address that cannot be taken, or was taken already, may be dropped. */
  lemma DropPending(img: Image, fn: Func, taken: set<nat>, seen: set<nat>, seen': set<nat>,
                    pending: seq<nat>, a: nat, limited: bool, limited': bool)
    requires Walking(img, fn, taken, seen, pending + [a], limited)
    requires seen <= seen' <= seen + {a}
    requires !Takes(img, fn, a) || (a in seen && seen' == seen) || (limited' && seen' == seen)
    requires limited ==> limited'
    ensures Walking(img, fn, taken, seen', pending, limited')
  {
    hide Takes, Edge, Reaches;
    forall p | p in pending ensures Reaches(img, fn, p) {
      assert p in pending + [a];
    }
    assert a in pending + [a];
  }

  /** Taking a waiting address replaces it by its successors. */
  lemma TakePending(img: Image, fn: Func, taken: set<nat>, seen: set<nat>, pending: seq<nat>, a: nat,
                    next: seq<nat>, limited: bool, limited': bool)
    requires Walking(img, fn, taken, seen, pending + [a], limited)
    requires Takes(img, fn, a) && (limited ==> limited')
    requires forall b :: b in next ==> b in pending || Edge(img, fn, a, b)
    requires forall p :: p in pending ==> p in next
    requires limited' || forall b :: Edge(img, fn, a, b) && Takes(img, fn, b) ==> b in next
    ensures Walking(img, fn, taken + {a}, seen + {a}, next, limited')
  {
    hide Takes, Edge, Reaches;
    assert a in pending + [a];
    forall p | p in next ensures Reaches(img, fn, p) {
      if p in pending {
        assert p in pending + [a];
      } else {
        ReachesNext(img, fn, a, p);
      }
    }
  }

  /** When the walk is over and no limit was hit, exactly the reachable instructions
      were taken. */
  lemma DoneTakesReachable(img: Image, fn: Func, taken: set<nat>, seen: set<nat>)
    requires Walking(img, fn, taken, seen, [], false)
    ensures forall a :: a in taken <==> Takes(img, fn, a) && Reaches(img, fn, a)
  {
    hide Takes, Edge;
    forall a | Takes(img, fn, a) && Reaches(img, fn, a) ensures a in taken {
      var p :| Path(img, fn, p) && p[|p| - 1] == a;
      ClosedHoldsPaths(img, fn, taken, p);
    }
  }

  /** `v` lists the instructions at the addresses `taken`, each once. */
  ghost predicate Lists(img: Image, fn: Func, v: seq<Insn>, taken: set<nat>) {
    && (forall i :: i in v ==> i.addr in taken && img.decode(i.addr, fn.mode) == Some(i))
    && (forall a :: a in taken ==> img.decode(a, fn.mode).Some? && img.decode(a, fn.mode).value in v)
    && (forall i, j :: 0 <= i < j < |v| ==> v[i].addr != v[j].addr)
    && |v| == |taken|
  }

  lemma ListsSnoc(img: Image, fn: Func, v: seq<Insn>, taken: set<nat>, i: Insn)
    requires Lists(img, fn, v, taken) && i.addr !in taken && img.decode(i.addr, fn.mode) == Some(i)
    ensures Lists(img, fn, v + [i], taken + {i.addr})
  {
    forall a | a in taken + {i.addr} ensures img.decode(a, fn.mode).Some? && img.decode(a, fn.mode).value in v + [i] {
      if a == i.addr {
        assert (v + [i])[|v|] == i;
      }
    }
  }

  /** The labels noted so far: the targets of the collected local branches, once each. */
  ghost predicate Labels(img: Image, fn: Func, labels: seq<nat>, taken: set<nat>) {
    && (forall l :: l in labels ==> exists a :: a in taken && BranchesTo(img, fn, a, l))
    && (forall a, l :: a in taken && BranchesTo(img, fn, a, l) ==> l in labels)
    && (forall i, j :: 0 <= i < j < |labels| ==> labels[i] != labels[j])
  }

  predicate BranchesTo(img: Image, fn: Func, a: nat, l: nat) {
    && img.decode(a, fn.mode).Some?
    && var i := img.decode(a, fn.mode).value;
       LocalBranch(fn, i) && i.target.value == l
  }

  lemma LabelsKept(img: Image, fn: Func, labels: seq<nat>, taken: set<nat>, a: nat)
    requires Labels(img, fn, labels, taken)
    requires forall l :: !BranchesTo(img, fn, a, l)
    ensures Labels(img, fn, labels, taken + {a})
  {
    hide BranchesTo;
    forall l | l in labels ensures exists b :: b in taken + {a} && BranchesTo(img, fn, b, l) {
      var b :| b in taken && BranchesTo(img, fn, b, l);
      assert b in taken + {a};
    }
  }

  lemma LabelsAdded(img: Image, fn: Func, labels: seq<nat>, taken: set<nat>, a: nat, t: nat)
    requires Labels(img, fn, labels, taken)
    requires forall l :: BranchesTo(img, fn, a, l) <==> l == t
    ensures Labels(img, fn, if t in labels then labels else labels + [t], taken + {a})
  {
    hide BranchesTo;
    var labels' := if t in labels then labels else labels + [t];
    forall l | l in labels' ensures exists b :: b in taken + {a} && BranchesTo(img, fn, b, l) {
      if l == t {
        assert BranchesTo(img, fn, a, l) && a in taken + {a};
      } else {
        var b :| b in taken && BranchesTo(img, fn, b, l);
        assert b in taken + {a};
      }
    }
  }

  /** The walk of collect, one field per local of the C function. */
  class Walk {
    const img: Image
    const fn: Func
    const seen: Table
    var v: seq<Insn>
    var labels: seq<nat>
    var stack: seq<nat>
    ghost var taken: set<nat>
    ghost var limited: bool
    /** The turns made so far. */
    ghost var turns: nat

    ghost predicate Valid()
      reads this, seen, seen.k
    {
      seen.Valid() && img.Decodes() && taken <= seen.Seen() && Noted()
    }

    /** The body and the labels agree with what was taken; a limit is met only by a
        function whose walk needs more than there is. */
    ghost predicate Noted()
      reads this
    {
      && Lists(img, fn, v, taken) && Labels(img, fn, labels, taken)
      && |stack| <= STACK_DEPTH && (limited ==> !Fits(img, fn))
    }

    /** Until a limit is met the walk is the unlimited one. */
    ghost predicate Tracks(cur: Option<nat>)
      reads this, seen
    {
      limited || Turns(img, fn, turns) == Pos(seen.Seen(), stack, cur)
    }

    constructor (img: Image, fn: Func)
      requires img.Decodes()
      ensures Valid() && fresh(seen) && fresh(seen.k)
      ensures this.img == img && this.fn == fn && stack == [fn.addr]
      ensures !limited && Walking(img, fn, taken, seen.Seen(), stack, false)
      ensures seen.Seen() == {} && !seen.Full() && Tracks(None)
    {
      this.img, this.fn := img, fn;
      seen := new Table();
      v, labels, stack, taken, limited, turns := [], [], [fn.addr], {}, false, 0;
      new;
      ReachesEntry(img, fn);
    }

    /** `fb_label`. */
    method AddLabel(l: nat)
      modifies `labels
      ensures labels == if l in old(labels) then old(labels) else old(labels) + [l]
    {
      for i := 0 to |labels|
        invariant l !in labels[..i] && labels == old(labels)
      {
        if labels[i] == l {
          return;
        }
      }
      labels := labels + [l];
    }

    /** The tests at the top of the inner loop: nothing, or the instruction newly
        marked at `a`. */
    method Enter(a: nat) returns (d: Option<Insn>)
      requires Valid() && Walking(img, fn, taken, seen.Seen(), stack + [a], limited) && Tracks(Some(a))
      modifies this`limited, this`turns, seen, seen.k
      ensures Valid()
      ensures Takes(img, fn, a) && a !in old(seen.Seen()) && !old(seen.Full()) ==> d.Some?
      ensures seen.Seen() == old(seen.Seen()) || (a !in old(seen.Seen()) && seen.Seen() == old(seen.Seen()) + {a})
      ensures d.None? ==> Walking(img, fn, taken, seen.Seen(), stack, limited) && Tracks(None)
      ensures d.Some? ==> Takes(img, fn, a) && img.decode(a, fn.mode) == d && a in seen.Seen() && a !in old(seen.Seen())
      ensures d.Some? ==> limited == old(limited) && turns == old(turns)
    {
      hide Walking, Lists, Labels, Table.Valid, Image.Decodes, Table.Full, Fits, Turns, Turn;
      d := None;
      ghost var was, p := seen.Seen(), Pos(seen.Seen(), stack, Some(a));
      TurnsStep(img, fn, turns);
      if a < img.base || a >= img.base + img.len || a >= fn.Bound() {
        DropPending(img, fn, taken, was, was, stack, a, limited, limited);
        TurnPasses(img, fn, p, a);
        turns := turns + 1;
        return;
      }
      var added := seen.Mark(a);
      if !added {
        if a in seen.Seen() || a == 0 {
          TurnPasses(img, fn, p, a);
        } else if !limited {
          seen.FullHolds();
          FullIsOver(img, fn, turns, p, a);
          limited := true;
        }
        DropPending(img, fn, taken, was, was, stack, a, old(limited), limited);
        turns := turns + 1;
        return;
      }
      d := img.decode(a, fn.mode);
      if d.None? {
        DropPending(img, fn, taken, was, seen.Seen(), stack, a, limited, limited);
        TurnMarks(img, fn, p, a);
        turns := turns + 1;
      }
    }

    /** One instruction of the inner loop: marks, decodes and pushes `a`, notes a
        label and a block start, and says whether flow goes on to the next address. */
    method Visit(a: nat) returns (next: Option<nat>)
      requires Valid() && Walking(img, fn, taken, seen.Seen(), stack + [a], limited) && Tracks(Some(a))
      modifies this, seen, seen.k
      ensures Valid() && Tracks(next)
      ensures old(taken) <= taken
      ensures Takes(img, fn, a) && a !in old(seen.Seen()) && !old(seen.Full()) ==> a in taken
      ensures next.Some? ==> |seen.Seen()| > old(|seen.Seen()|)
      ensures |seen.Seen()| > old(|seen.Seen()|) || (stack == old(stack) && seen.Seen() == old(seen.Seen()))
      ensures Walking(img, fn, taken, seen.Seen(), stack + (if next.Some? then [next.value] else []), limited)
    {
      hide Walking, Lists, Labels, Takes, Table.Valid, Image.Decodes, Table.Full, Fits, Turns;
      ghost var was := seen.Seen();
      var d := Enter(a);
      if d.None? {
        assert stack + [] == stack;
        return None;
      }
      DecodesAt(img, a, fn.mode);
      next := Push(a, d.value, was);
    }

    /** `fb_push`, and for a local branch the label and the block start. */
    method Append(a: nat, i: Insn)
      requires Noted() && img.decode(a, fn.mode) == Some(i) && i.addr == a && a !in taken
      requires LocalBranch(fn, i) && |stack| == STACK_DEPTH ==> !Fits(img, fn)
      modifies `v, `labels, `stack, `taken, `limited
      ensures Noted() && taken == old(taken) + {a}
      ensures Pushed(fn, i, old(stack), old(limited), stack, limited)
    {
      hide Lists, Labels, BranchesTo, LocalBranch, Fits;
      v := v + [i];
      ListsSnoc(img, fn, old(v), taken, i);
      if LocalBranch(fn, i) {
        NoteBranch(a, i);
      } else {
        LabelsOfOther(img, fn, labels, taken, a, i);
      }
      taken := taken + {a};
    }

    /** A local branch's label and block start. */
    method NoteBranch(a: nat, i: Insn)
      requires img.decode(a, fn.mode) == Some(i) && LocalBranch(fn, i) && Labels(img, fn, labels, taken)
      requires |stack| <= STACK_DEPTH
      modifies `labels, `stack, `limited
      ensures Labels(img, fn, labels, taken + {a}) && |stack| <= STACK_DEPTH
      ensures Pushed(fn, i, old(stack), old(limited), stack, limited)
    {
      hide Labels, BranchesTo, Func.Bound;
      AddLabel(i.target.value);
      LabelsOfBranch(img, fn, old(labels), taken, a, i);
      if |stack| < STACK_DEPTH {
        stack := stack + [i.target.value];
      } else {
        limited := true;
      }
    }

    /** The rest of the turn for an instruction `i` newly marked at `a`. */
    method Push(a: nat, i: Insn, ghost was: set<nat>) returns (next: Option<nat>)
      requires Valid() && Takes(img, fn, a) && img.decode(a, fn.mode) == Some(i) && i.addr == a
      requires a !in was && seen.Seen() == was + {a} && taken <= was
      requires Walking(img, fn, taken, was, stack + [a], limited)
      requires limited || Turns(img, fn, turns) == Pos(was, stack, Some(a))
      modifies this
      ensures Valid() && taken == old(taken) + {a} && Tracks(next)
      ensures Walking(img, fn, taken, seen.Seen(), stack + (if next.Some? then [next.value] else []), limited)
    {
      hide Walking, Lists, Labels, Takes, BranchesTo, Table.Valid, Image.Decodes, Fits, Turns, Turn, LocalBranch;
      TurnsStep(img, fn, turns);
      TurnTakes(img, fn, turns, Pos(was, stack, Some(a)), a, i);
      Append(a, i);
      next := if i.cls == Return || (i.cls == Branch && !i.conditional) then None else Some(a + i.width);
      TakeInstruction(img, fn, old(taken), was, old(stack), a, i, stack, next, old(limited), limited);
      turns := turns + 1;
    }

    /** The inner loop, from a block start. */
    method Block(start: nat)
      requires Valid() && Walking(img, fn, taken, seen.Seen(), stack + [start], limited) && Tracks(Some(start))
      modifies this, seen, seen.k
      ensures Valid() && Walking(img, fn, taken, seen.Seen(), stack, limited) && Tracks(None)
      ensures old(taken) <= taken
      ensures Takes(img, fn, start) && start !in old(seen.Seen()) && !old(seen.Full()) ==> start in taken
      ensures |seen.Seen()| > old(|seen.Seen()|) || (seen.Seen() == old(seen.Seen()) && stack == old(stack))
    {
      hide Walking, Lists, Labels, Takes, Table.Valid, Image.Decodes, Table.Full, Fits, Turns;
      var cur := Visit(start);
      while cur.Some?
        invariant Valid() && old(taken) <= taken && Tracks(cur)
        invariant Takes(img, fn, start) && start !in old(seen.Seen()) && !old(seen.Full()) ==> start in taken
        invariant cur.Some? ==> |seen.Seen()| > old(|seen.Seen()|)
        invariant |seen.Seen()| > old(|seen.Seen()|) || (seen.Seen() == old(seen.Seen()) && stack == old(stack))
        invariant Walking(img, fn, taken, seen.Seen(), stack + (if cur.Some? then [cur.value] else []), limited)
        decreases SLOTS - |seen.Seen()|, cur.Some?
      {
        seen.SeenBounded();
        cur := Visit(cur.value);
        seen.SeenBounded();
      }
      assert stack + [] == stack;
    }

    method Pop()
      requires Valid() && |stack| > 0 && Tracks(None)
      modifies `stack, `turns
      ensures Valid() && stack == old(stack)[..|old(stack)| - 1] && Tracks(Some(old(stack)[|old(stack)| - 1]))
    {
      hide Lists, Labels, Table.Valid, Image.Decodes, Fits;
      stack := stack[..|stack| - 1];
      turns := turns + 1;
    }

    /** Pops a block start and walks it. */
    method Next()
      requires Valid() && |stack| > 0 && Walking(img, fn, taken, seen.Seen(), stack, limited) && Tracks(None)
      modifies this, seen, seen.k
      ensures Valid() && Walking(img, fn, taken, seen.Seen(), stack, limited) && Tracks(None)
      ensures old(taken) <= taken
      ensures |seen.Seen()| > old(|seen.Seen()|)
           || (|seen.Seen()| == old(|seen.Seen()|) && |stack| < old(|stack|))
    {
      hide Walking, Lists, Labels, Table.Valid, Image.Decodes, Table.Full, Fits, Turns;
      var a := stack[|stack| - 1];
      assert stack[..|stack| - 1] + [a] == stack;
      Pop();
      Block(a);
    }

    /** The walk proper. The instruction cap is never what ends it: the visited
        table holds fewer addresses than the cap. */
    method Run()
      requires Valid() && stack == [fn.addr] && !limited && seen.Seen() == {} && !seen.Full()
      requires Walking(img, fn, taken, seen.Seen(), stack, false) && Tracks(None)
      modifies this, seen, seen.k
      ensures Valid() && Walking(img, fn, taken, seen.Seen(), [], limited)
      ensures Takes(img, fn, fn.addr) ==> fn.addr in taken
      ensures |v| <= SLOTS
    {
      hide Walking, Lists, Labels, Takes, Table.Valid, Image.Decodes, Table.Full, Fits, Turns;
      assert [] + [fn.addr] == stack;
      Pop();
      Block(fn.addr);
      BodyBounded();
      while |stack| > 0 && |v| < MAX_INSNS
        invariant Valid() && Walking(img, fn, taken, seen.Seen(), stack, limited) && Tracks(None)
        invariant Takes(img, fn, fn.addr) ==> fn.addr in taken
        invariant |v| <= SLOTS
        decreases SLOTS - |seen.Seen()|, |stack|
      {
        Next();
        BodyBounded();
      }
      assert stack == [];
    }

    lemma BodyBounded()
      requires Valid()
      ensures |v| <= |seen.Seen()| <= SLOTS
    {
      hide Labels;
      seen.SeenBounded();
      SubsetSize(taken, seen.Seen());
    }
  }

  lemma {:induction false} SubsetSize(a: set<nat>, b: set<nat>)
    requires a <= b
    ensures |a| <= |b|
    decreases a
  {
    if x :| x in a {
      SubsetSize(a - {x}, b - {x});
    }
  }

  /** A body in address order. */
  ghost predicate Ascending(v: seq<Insn>) {
    forall i, j :: 0 <= i < j < |v| ==> v[i].addr < v[j].addr
  }

  function AddrOf(i: Insn): nat {
    i.addr
  }

  lemma DecodesAt(img: Image, a: nat, m: Mode)
    requires img.Decodes()
    ensures img.decode(a, m).Some? ==> img.decode(a, m).value.addr == a
  {
  }

  lemma LabelsOfBranch(img: Image, fn: Func, labels: seq<nat>, taken: set<nat>, a: nat, i: Insn)
    requires Labels(img, fn, labels, taken) && img.decode(a, fn.mode) == Some(i) && LocalBranch(fn, i)
    ensures var t := i.target.value;
            Labels(img, fn, if t in labels then labels else labels + [t], taken + {a})
  {
    LabelsAdded(img, fn, labels, taken, a, i.target.value);
  }

  lemma LabelsOfOther(img: Image, fn: Func, labels: seq<nat>, taken: set<nat>, a: nat, i: Insn)
    requires Labels(img, fn, labels, taken) && img.decode(a, fn.mode) == Some(i) && !LocalBranch(fn, i)
    ensures Labels(img, fn, labels, taken + {a})
  {
    LabelsKept(img, fn, labels, taken, a);
  }

  /** What an instruction does to the block stack: a local branch's target goes on it,
      unless it is full. */
  predicate Pushed(fn: Func, i: Insn, stack: seq<nat>, limited: bool, stack': seq<nat>, limited': bool) {
    if !LocalBranch(fn, i) then stack' == stack && limited' == limited
    else if |stack| < STACK_DEPTH then stack' == stack + [i.target.value] && limited' == limited
    else stack' == stack && limited'
  }

  // ----- the unlimited walk, turn by turn

  lemma TurnsStep(img: Image, fn: Func, n: nat)
    ensures Turns(img, fn, n + 1) == Turn(img, fn, Turns(img, fn, n))
  {
  }

  lemma TurnPasses(img: Image, fn: Func, p: Pos, a: nat)
    requires p.cur == Some(a) && Passed(img, fn, p.seen, a)
    ensures Turn(img, fn, p) == Pos(p.seen, p.stack, None)
  {
  }

  lemma TurnMarks(img: Image, fn: Func, p: Pos, a: nat)
    requires p.cur == Some(a) && !Passed(img, fn, p.seen, a)
    ensures Turn(img, fn, p).seen == p.seen + {a}
    ensures img.decode(a, fn.mode).None? ==> Turn(img, fn, p) == Pos(p.seen + {a}, p.stack, None)
  {
  }

  /** An address that finds the table full is one more than it holds. */
  lemma FullIsOver(img: Image, fn: Func, n: nat, p: Pos, a: nat)
    requires Turns(img, fn, n) == p && p.cur == Some(a) && !Passed(img, fn, p.seen, a) && |p.seen| == SLOTS
    ensures !Fits(img, fn)
  {
    hide Fits, Turns, Turn;
    TurnMarks(img, fn, p, a);
    if Fits(img, fn) {
      FitsAt(img, fn, n);
    }
  }

  /** A taken instruction's turn; a branch target that finds the stack full is one more
      than it holds. */
  lemma TurnTakes(img: Image, fn: Func, n: nat, p: Pos, a: nat, i: Insn)
    requires p.cur == Some(a) && a !in p.seen && Takes(img, fn, a) && img.decode(a, fn.mode) == Some(i)
    ensures Turn(img, fn, p) == Pos(p.seen + {a}, if LocalBranch(fn, i) then p.stack + [i.target.value] else p.stack,
                                    if Falls(i) then Some(a + i.width) else None)
    ensures Turns(img, fn, n) == p && LocalBranch(fn, i) && |p.stack| == STACK_DEPTH ==> !Fits(img, fn)
  {
    hide Fits, Turns;
    if Turns(img, fn, n) == p && Fits(img, fn) {
      FitsAt(img, fn, n);
    }
  }

  lemma TakeInstruction(img: Image, fn: Func, taken: set<nat>, seen: set<nat>, stack: seq<nat>, a: nat, i: Insn,
                        stack': seq<nat>, next: Option<nat>, limited: bool, limited': bool)
    requires Walking(img, fn, taken, seen, stack + [a], limited)
    requires Takes(img, fn, a) && img.decode(a, fn.mode) == Some(i)
    requires next == if Falls(i) then Some(a + i.width) else None
    requires Pushed(fn, i, stack, limited, stack', limited')
    ensures Walking(img, fn, taken + {a}, seen + {a}, stack' + (if next.Some? then [next.value] else []), limited')
  {
    var pending := stack' + (if next.Some? then [next.value] else []);
    TakePending(img, fn, taken, seen, stack, a, pending, limited, limited');
  }

  // ----- label pruning

  ghost predicate Placed(v: seq<Insn>, l: nat) {
    exists i :: 0 <= i < |v| && v[i].addr == l
  }

  /** The binary search over the sorted body. */
  method FindPlaced(v: seq<Insn>, l: nat) returns (placed: bool)
    requires Ascending(v)
    ensures placed <==> Placed(v, l)
  {
    var lo, hi := 0, |v|;
    while lo < hi
      invariant 0 <= lo <= hi <= |v|
      invariant forall i :: 0 <= i < |v| && v[i].addr == l ==> lo <= i < hi
    {
      var mid := lo + (hi - lo) / 2;
      if v[mid].addr == l {
        return true;
      }
      if v[mid].addr < l {
        lo := mid + 1;
      } else {
        hi := mid;
      }
    }
    placed := false;
  }

  ghost function Keep(labels: seq<nat>, v: seq<Insn>): (r: seq<nat>)
    ensures |r| <= |labels|
  {
    if labels == [] then [] else
      var n := |labels| - 1;
      Keep(labels[..n], v) + if Placed(v, labels[n]) then [labels[n]] else []
  }

  lemma {:induction false} KeepFilters(labels: seq<nat>, v: seq<Insn>)
    ensures forall l :: l in Keep(labels, v) <==> l in labels && Placed(v, l)
    ensures (forall i, j :: 0 <= i < j < |labels| ==> labels[i] != labels[j]) ==>
              forall i, j :: 0 <= i < j < |Keep(labels, v)| ==> Keep(labels, v)[i] != Keep(labels, v)[j]
  {
    hide Placed;
    if labels != [] {
      var n := |labels| - 1;
      KeepFilters(labels[..n], v);
      assert labels == labels[..n] + [labels[n]];
    }
  }

  /** Compacts the labels in place, dropping those whose block was not collected. */
  method Prune(labels: seq<nat>, v: seq<Insn>) returns (kept: seq<nat>)
    requires Ascending(v)
    ensures kept == Keep(labels, v)
  {
    hide Placed;
    var buf := labels;
    var n := 0;
    for i := 0 to |labels|
      invariant 0 <= n <= i && |buf| == |labels|
      invariant buf[i..] == labels[i..]
      invariant buf[..n] == Keep(labels[..i], v)
    {
      assert buf[i] == buf[i..][0] == labels[i];
      assert labels[..i + 1][..i] == labels[..i];
      assert buf[i + 1..] == buf[i..][1..] == labels[i + 1..];
      var placed := FindPlaced(v, buf[i]);
      if placed {
        buf := buf[n := buf[i]];
        n := n + 1;
      }
    }
    assert labels[..|labels|] == labels;
    kept := buf[..n];
  }

  // ----- the whole of collect

  datatype Body = Body(v: seq<Insn>, labels: seq<nat>)

  /** `b` is the body over the addresses `taken`: its instructions in address order,
      and one label for each collected target of a collected local branch. */
  ghost predicate IsBody(img: Image, fn: Func, b: Body, taken: set<nat>) {
    && Ascending(b.v) && Lists(img, fn, b.v, taken)
    && (forall l :: l in b.labels <==> l in taken && exists a :: a in taken && BranchesTo(img, fn, a, l))
    && (forall i, j :: 0 <= i < j < |b.labels| ==> b.labels[i] != b.labels[j])
  }

  lemma SortLists(img: Image, fn: Func, v: seq<Insn>, taken: set<nat>)
    requires Lists(img, fn, v, taken)
    ensures Ascending(Sort(AddrOf, v)) && Lists(img, fn, Sort(AddrOf, v), taken)
  {
    SortKeeps(AddrOf, v);
    var w := Sort(AddrOf, v);
    forall i, j | 0 <= i < j < |w| ensures w[i].addr < w[j].addr {
      assert AddrOf(w[i]) < AddrOf(w[j]);
    }
  }

  lemma PlacedIsTaken(img: Image, fn: Func, v: seq<Insn>, taken: set<nat>, l: nat)
    requires Lists(img, fn, v, taken) && img.Decodes()
    ensures Placed(v, l) <==> l in taken
  {
    if l in taken {
      var i :| 0 <= i < |v| && v[i] == img.decode(l, fn.mode).value;
      assert v[i].addr == l;
    }
  }

  lemma PrunedIsBody(img: Image, fn: Func, v: seq<Insn>, labels: seq<nat>, taken: set<nat>)
    requires Lists(img, fn, v, taken) && Ascending(v) && Labels(img, fn, labels, taken) && img.Decodes()
    ensures IsBody(img, fn, Body(v, Keep(labels, v)), taken)
  {
    hide Lists, Placed, BranchesTo, Image.Decodes;
    KeepFilters(labels, v);
    forall l ensures Placed(v, l) <==> l in taken {
      PlacedIsTaken(img, fn, v, taken, l);
    }
  }

  lemma EntryComesFirst(img: Image, fn: Func, v: seq<Insn>, taken: set<nat>)
    requires Lists(img, fn, v, taken) && Ascending(v) && img.Decodes() && fn.addr in taken
    requires forall a :: a in taken ==> Reaches(img, fn, a)
    ensures v != [] && v[0].addr == fn.addr
  {
    PlacedIsTaken(img, fn, v, taken, fn.addr);
    assert v[0] in v;
    ReachesUpwards(img, fn, v[0].addr);
  }

  /** What collect promises of the body `b` over `taken`: only reachable instructions,
      each once, in address order, at most 8192 of them, the entry first; and every
      reachable instruction, when the walk fits its limits. */
  ghost predicate Collected(img: Image, fn: Func, b: Body, taken: set<nat>) {
    && IsBody(img, fn, b, taken) && |b.v| <= SLOTS
    && (forall a :: a in taken ==> Takes(img, fn, a) && Reaches(img, fn, a))
    && (Fits(img, fn) ==> forall a :: Takes(img, fn, a) && Reaches(img, fn, a) ==> a in taken)
    && (Takes(img, fn, fn.addr) ==> b.v != [] && b.v[0].addr == fn.addr)
  }

  /** `collect`, whatever the function and whatever limits it meets. */
  method CollectBody(img: Image, fn: Func) returns (b: Body)
    requires img.Decodes()
    ensures exists taken :: Collected(img, fn, b, taken)
  {
    hide Lists, Labels, Takes, Reaches, Image.Decodes, Ascending, IsBody, Table.Valid, Table.Full, Fits;
    var w := new Walk(img, fn);
    w.Run();
    ghost var taken := w.taken;
    var v := Sort(AddrOf, w.v);
    SortLists(img, fn, w.v, taken);
    var labels := Prune(w.labels, v);
    PrunedIsBody(img, fn, v, w.labels, taken);
    if Takes(img, fn, fn.addr) {
      EntryComesFirst(img, fn, v, taken);
    }
    if !w.limited {
      DoneTakesReachable(img, fn, taken, w.seen.Seen());
    }
    b := Body(v, labels);
    assert Collected(img, fn, b, taken);
  }
}
