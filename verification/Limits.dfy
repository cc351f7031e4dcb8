/** When collect's two limits, the visited table and the block stack, are never met:
    its walk as it would go without them. */
module Limits {
  import opened Code
  import opened Visited

  const STACK_DEPTH: nat := 512

  /** Where the walk stands: the addresses marked, the block starts stacked, and the
      address at hand inside a block. */
  datatype Pos = Pos(seen: set<nat>, stack: seq<nat>, cur: Option<nat>)

  /** One turn of the inner loop, or one pop of the outer; nothing once all is done. */
  ghost function Turn(img: Image, fn: Func, p: Pos): Pos {
    if p.cur.None? then
      if p.stack == [] then p
      else Pos(p.seen, p.stack[..|p.stack| - 1], Some(p.stack[|p.stack| - 1]))
    else
      var a := p.cur.value;
      if Passed(img, fn, p.seen, a) then Pos(p.seen, p.stack, None)
      else if img.decode(a, fn.mode).None? then Pos(p.seen + {a}, p.stack, None)
      else
        var i := img.decode(a, fn.mode).value;
        Pos(p.seen + {a},
            if LocalBranch(fn, i) then p.stack + [i.target.value] else p.stack,
            if Falls(i) then Some(a + i.width) else None)
  }

  /** The walk does not mark `a`. */
  predicate Passed(img: Image, fn: Func, seen: set<nat>, a: nat) {
    !img.InSegment(a) || a >= fn.Bound() || a in seen || a == 0
  }

  ghost function Turns(img: Image, fn: Func, n: nat): Pos {
    if n == 0 then Pos({}, [fn.addr], None) else Turn(img, fn, Turns(img, fn, n - 1))
  }

  predicate Within(p: Pos) {
    |p.stack| <= STACK_DEPTH && |p.seen| <= SLOTS
  }

  /** The walk never needs more slots or more stack than there are. */
  ghost predicate Fits(img: Image, fn: Func) {
    forall n: nat :: Within(Turns(img, fn, n))
  }

  /** In numbers: never more than 512 block starts stacked, or 8192 addresses marked. */
  lemma FitsNumbers(img: Image, fn: Func, n: nat)
    requires Fits(img, fn)
    ensures |Turns(img, fn, n).stack| <= 512 && |Turns(img, fn, n).seen| <= 8192
  {
    assert Within(Turns(img, fn, n));
  }

  lemma NumbersFit(img: Image, fn: Func)
    requires forall n: nat :: |Turns(img, fn, n).stack| <= 512 && |Turns(img, fn, n).seen| <= 8192
    ensures Fits(img, fn)
  {
    forall n: nat ensures Within(Turns(img, fn, n)) {
      assert |Turns(img, fn, n).stack| <= 512;
    }
  }

  lemma FitsAt(img: Image, fn: Func, n: nat)
    requires Fits(img, fn)
    ensures Within(Turn(img, fn, Turns(img, fn, n)))
  {
    hide Within, Turn;
    assert Within(Turns(img, fn, n + 1));
  }

  // ----- what a caller can check

  /** More addresses to visit than the table has slots. */
  ghost predicate Crowded(img: Image, fn: Func) {
    exists s: set<nat> :: |s| > SLOTS && Visitable(img, fn, s)
  }

  ghost predicate Visitable(img: Image, fn: Func, s: set<nat>) {
    forall a :: a in s ==> Reaches(img, fn, a) && img.InSegment(a) && a < fn.Bound()
  }

  /** As many local branches as the block stack has entries, or more. */
  ghost predicate Branchy(img: Image, fn: Func) {
    exists s: set<nat> :: |s| >= STACK_DEPTH && LocalBranches(img, fn, s)
  }

  ghost predicate LocalBranches(img: Image, fn: Func, s: set<nat>) {
    forall a :: a in s ==> Takes(img, fn, a) && Reaches(img, fn, a) && LocalBranch(fn, img.decode(a, fn.mode).value)
  }

  /** The unlimited walk marks visitable addresses, and stacks no more than the local
      branches among them; the entry makes one more. */
  ghost predicate Bounded(img: Image, fn: Func, p: Pos, branches: set<nat>) {
    && Visitable(img, fn, p.seen)
    && (forall a :: a in p.stack ==> Reaches(img, fn, a))
    && (p.cur.Some? ==> Reaches(img, fn, p.cur.value))
    && branches <= p.seen && LocalBranches(img, fn, branches) && |p.stack| <= |branches| + 1
  }

  lemma TurnKeepsBound(img: Image, fn: Func, p: Pos, branches: set<nat>) returns (branches': set<nat>)
    requires Bounded(img, fn, p, branches)
    ensures Bounded(img, fn, Turn(img, fn, p), branches')
  {
    hide Reaches;
    branches' := branches;
    if p.cur.None? {
      if p.stack != [] {
        assert p.stack[|p.stack| - 1] in p.stack;
      }
    } else if !Passed(img, fn, p.seen, p.cur.value) && img.decode(p.cur.value, fn.mode).Some? {
      branches' := InsnKeepsBound(img, fn, p, branches, p.cur.value);
    }
  }

  lemma InsnKeepsBound(img: Image, fn: Func, p: Pos, branches: set<nat>, a: nat) returns (branches': set<nat>)
    requires Bounded(img, fn, p, branches) && p.cur == Some(a)
    requires !Passed(img, fn, p.seen, a) && img.decode(a, fn.mode).Some?
    ensures Bounded(img, fn, Turn(img, fn, p), branches')
  {
    hide Reaches;
    var i := img.decode(a, fn.mode).value;
    if Falls(i) {
      ReachesNext(img, fn, a, a + i.width);
    }
    if LocalBranch(fn, i) {
      ReachesNext(img, fn, a, i.target.value);
      branches' := branches + {a};
      assert a !in branches;
    } else {
      branches' := branches;
    }
  }

  lemma {:induction false} TurnsBounded(img: Image, fn: Func, n: nat) returns (branches: set<nat>)
    ensures Bounded(img, fn, Turns(img, fn, n), branches)
  {
    if n == 0 {
      ReachesEntry(img, fn);
      branches := {};
    } else {
      hide Bounded, Turn;
      branches := TurnsBounded(img, fn, n - 1);
      branches := TurnKeepsBound(img, fn, Turns(img, fn, n - 1), branches);
    }
  }

  /** A function that is neither crowded nor branchy stays within the limits. */
  lemma SparseFits(img: Image, fn: Func)
    requires !Crowded(img, fn) && !Branchy(img, fn)
    ensures Fits(img, fn)
  {
    hide Turns, Visitable, LocalBranches, Reaches;
    forall n: nat ensures Within(Turns(img, fn, n)) {
      var branches := TurnsBounded(img, fn, n);
    }
  }

  // ----- extents

  lemma {:induction false} EvenBounds(s: set<nat>, lo: nat, n: nat)
    requires lo % 2 == 0 && forall a :: a in s ==> a % 2 == 0 && lo <= a < lo + 2 * n
    ensures |s| <= n
    decreases n
  {
    if n > 0 {
      EvenBounds(s - {lo + 2 * (n - 1)}, lo, n - 1);
    } else {
      assert s == {};
    }
  }

  lemma EdgeEven(img: Image, fn: Func, a: nat, b: nat)
    requires img.Decodes() && Aligned(img) && a % 2 == 0 && Edge(img, fn, a, b)
    ensures b % 2 == 0
  {
    var i := img.decode(a, fn.mode).value;
    assert i.addr == a && (i.width == 2 || i.width == 4);
  }

  lemma {:induction false} PathEven(img: Image, fn: Func, p: seq<nat>)
    requires img.Decodes() && Aligned(img) && fn.addr % 2 == 0 && Path(img, fn, p)
    ensures p[|p| - 1] % 2 == 0
    decreases |p|
  {
    hide Image.Decodes, Aligned, Edge;
    if |p| > 1 {
      var q := p[..|p| - 1];
      forall i | 0 <= i < |q| - 1 ensures Edge(img, fn, q[i], q[i + 1]) {
        assert Edge(img, fn, p[i], p[i + 1]);
      }
      PathEven(img, fn, q);
      assert Edge(img, fn, p[|p| - 2], p[|p| - 1]);
      EdgeEven(img, fn, p[|p| - 2], p[|p| - 1]);
    }
  }

  /** Reachable addresses of a set below the bound are the even ones of the extent. */
  lemma ExtentBounds(img: Image, fn: Func, s: set<nat>, n: nat)
    requires img.Decodes() && Aligned(img) && fn.addr % 2 == 0 && fn.Bound() - fn.addr <= 2 * n
    requires forall a :: a in s ==> Reaches(img, fn, a) && a < fn.Bound()
    ensures |s| <= n
  {
    hide Image.Decodes, Aligned, Func.Bound;
    forall a | a in s ensures a % 2 == 0 && fn.addr <= a {
      ReachesUpwards(img, fn, a);
      var p :| Path(img, fn, p) && p[|p| - 1] == a;
      PathEven(img, fn, p);
    }
    EvenBounds(s, fn.addr, n);
  }

  /** No function of up to 16384 bytes is crowded, and none whose end is not known. */
  lemma SmallIsNotCrowded(img: Image, fn: Func)
    requires img.Decodes() && Aligned(img) && fn.addr % 2 == 0 && fn.end <= fn.addr + 16384
    ensures !Crowded(img, fn)
  {
    assert fn.Bound() - fn.addr <= 2 * SLOTS;
    hide Reaches, Image.Decodes, Aligned, Func.Bound;
    if Crowded(img, fn) {
      var s: set<nat> :| |s| > SLOTS && Visitable(img, fn, s);
      ExtentBounds(img, fn, s, SLOTS);
    }
  }

  /** No function of a known end up to 1022 bytes on is branchy. */
  lemma ShortIsNotBranchy(img: Image, fn: Func)
    requires img.Decodes() && Aligned(img) && fn.addr % 2 == 0 && fn.addr + 16 < fn.end <= fn.addr + 1022
    ensures !Branchy(img, fn)
  {
    assert fn.Bound() - fn.addr <= 2 * (STACK_DEPTH - 1);
    hide Reaches, Image.Decodes, Aligned, Func.Bound;
    if Branchy(img, fn) {
      var s: set<nat> :| |s| >= STACK_DEPTH && LocalBranches(img, fn, s);
      ExtentBounds(img, fn, s, STACK_DEPTH - 1);
    }
  }
}
