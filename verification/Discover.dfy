/** Function discovery by recursive descent (analyze.c): a worklist of functions, and
    inside each a worklist of blocks, over one map of decoded instructions. */
module Discover {
  import opened Code
  import opened Search
  import opened Bitmap
  import opened Emit
  import opened Shape

  datatype Seed = Seed(addr: nat, mode: Mode, heur: bool)

  /** `vf_func`. */
  datatype Found = Found(addr: nat, mode: Mode, end: nat, insns: nat, heur: bool)

  /** The instruction decoded at an address and the mode it was decoded in. */
  datatype At = At(mode: Mode, i: Insn)

  type Decoded = map<nat, At>

  /** The function whose walk decoded each address. */
  type Owners = map<nat, nat>

  /** Each function's address with the seed it was registered from. */
  type Registered = map<nat, Seed>

  ghost predicate Extends(regs: Registered, regs': Registered) {
    forall a :: a in regs ==> a in regs' && regs'[a] == regs[a]
  }

  function Flip(m: Mode): Mode {
    if m == T32 then A32 else T32
  }

  /** A call that switches is followed in the other mode, any other in the same. */
  lemma CalleeModeIs(at: At)
    ensures CalleeMode(at) != at.mode <==> at.i.switches
  {
  }

  /** A Thumb call into ARM code that is not a known import stub. */
  predicate Refused(stubs: seq<nat>, m: Mode, i: Insn)
    requires i.target.Some?
  {
    i.switches && m == T32 && ClearThumb(i.target.value) !in stubs
  }

  predicate Continues(i: Insn) {
    i.cls !in {Return, Indirect} && !(i.cls == Branch && i.target.Some? && !i.conditional)
  }

  /** Local flow as the descent follows it. */
  predicate Successor(i: Insn, b: nat) {
    (Continues(i) && b == i.addr + i.width) || (i.cls == Branch && i.target == Some(b))
  }

  /** Nothing is left to decode at `b` in mode `m`. */
  predicate Settled(img: Image, dec: Decoded, m: Mode, b: nat) {
    !img.InSegment(b) || img.decode(b, m).None? || b in dec
  }

  /** `at` is what the segment holds at `a`. */
  predicate Genuine(img: Image, a: nat, at: At) {
    a % 2 == 0 && img.InSegment(a) && at.i.addr == a && img.decode(a, at.mode) == Some(at.i)
  }

  /** Every successor of a decoded instruction is settled, or is a block waiting in the
      walk under way, which is in mode `m`. */
  ghost predicate Descent(img: Image, dec: Decoded, m: Mode, pending: seq<nat>) {
    && (forall a :: a in dec ==> Genuine(img, a, dec[a]))
    && (forall a, b :: a in dec && Successor(dec[a].i, b) ==> SettledOrWaits(img, dec, m, pending, dec[a].mode, b))
    && (forall p :: p in pending ==> p % 2 == 0)
  }

  predicate SettledOrWaits(img: Image, dec: Decoded, m: Mode, pending: seq<nat>, mode: Mode, b: nat) {
    Settled(img, dec, mode, b) || (mode == m && b in pending)
  }

  lemma DecodedIsSettled(img: Image, dec: Decoded, m: Mode, a: nat)
    requires a in dec
    ensures Settled(img, dec, m, a)
  {
  }

  lemma SettledStays(img: Image, dec: Decoded, dec': Decoded, m: Mode, b: nat)
    requires Settled(img, dec, m, b) && dec.Keys <= dec'.Keys
    ensures Settled(img, dec', m, b)
  {
    assert b in dec.Keys ==> b in dec'.Keys;
  }

  lemma DropSettled(img: Image, dec: Decoded, m: Mode, pending: seq<nat>, a: nat)
    requires Descent(img, dec, m, pending + [a]) && Settled(img, dec, m, a)
    ensures Descent(img, dec, m, pending)
  {
    hide Settled, Successor;
    forall x, b | x in dec && Successor(dec[x].i, b)
      ensures SettledOrWaits(img, dec, m, pending, dec[x].mode, b)
    {
      if !Settled(img, dec, dec[x].mode, b) {
        assert b in pending + [a];
      }
    }
    forall p | p in pending ensures p % 2 == 0 {
      assert p in pending + [a];
    }
  }

  lemma TakeDecoded(img: Image, dec: Decoded, m: Mode, pending: seq<nat>, a: nat, i: Insn, pending': seq<nat>)
    requires Descent(img, dec, m, pending + [a]) && Aligned(img) && img.Decodes()
    requires img.InSegment(a) && a !in dec && img.decode(a, m) == Some(i)
    requires forall p :: p in pending' <==> p in pending || Successor(i, p)
    ensures Descent(img, dec[a := At(m, i)], m, pending')
  {
    hide Settled, Successor, Image.Decodes, Aligned, Genuine;
    var dec' := dec[a := At(m, i)];
    assert a in pending + [a];
    InsnIsGenuine(img, a, m, i);
    forall p | p in pending' ensures p % 2 == 0 {
      if p in pending {
        assert p in pending + [a];
      } else {
        SuccessorEven(img, m, a, i, p);
      }
    }
    forall x, b | x in dec' && Successor(dec'[x].i, b) ensures SettledOrWaits(img, dec', m, pending', dec'[x].mode, b) {
      if x != a {
        assert x in dec && dec'[x] == dec[x];
        WaitsAfter(img, dec, m, pending, a, At(m, i), pending', dec[x].mode, b);
      }
    }
    forall x | x in dec' ensures Genuine(img, x, dec'[x]) {
      assert x == a || (x in dec && dec'[x] == dec[x]);
    }
  }

  lemma InsnIsGenuine(img: Image, a: nat, m: Mode, i: Insn)
    requires img.Decodes() && a % 2 == 0 && img.InSegment(a) && img.decode(a, m) == Some(i)
    ensures Genuine(img, a, At(m, i))
  {
  }

  /** Decoding one more instruction settles its address and unsettles none. */
  lemma WaitsAfter(img: Image, dec: Decoded, m: Mode, pending: seq<nat>, a: nat, at: At, pending': seq<nat>,
                   mode: Mode, b: nat)
    requires SettledOrWaits(img, dec, m, pending + [a], mode, b) && forall p :: p in pending ==> p in pending'
    ensures SettledOrWaits(img, dec[a := at], m, pending', mode, b)
  {
  }

  lemma SuccessorEven(img: Image, m: Mode, a: nat, i: Insn, p: nat)
    requires Aligned(img) && img.Decodes() && a % 2 == 0 && img.decode(a, m) == Some(i) && Successor(i, p)
    ensures p % 2 == 0
  {
    assert i.addr == a && (i.width == 2 || i.width == 4);
  }

  // ----- calls and functions

  predicate Asked(q: seq<Seed>, t: nat) {
    exists k :: 0 <= k < |q| && q[k].addr == t
  }

  /** A direct call the descent follows. */
  predicate Followed(stubs: seq<nat>, at: At) {
    at.i.cls == Call && at.i.target.Some? && !Refused(stubs, at.mode, at.i)
  }

  /** Every direct call that was not refused has its target in the queue. */
  ghost predicate CallsAsked(stubs: seq<nat>, dec: Decoded, q: seq<Seed>) {
    forall a :: a in dec && Followed(stubs, dec[a]) ==> Asked(q, dec[a].i.target.value)
  }

  /** The first `head` seeds of the queue have been turned into functions. */
  ghost predicate Served(img: Image, q: seq<Seed>, head: nat, regs: set<nat>)
    requires head <= |q|
  {
    forall k :: 0 <= k < head && img.InSegment(q[k].addr) ==> q[k].addr in regs
  }

  /** The walk of every registered function began: its entry is decoded, if it can be. */
  ghost predicate Begun(img: Image, dec: Decoded, regs: Registered) {
    forall a :: a in regs ==> Settled(img, dec, regs[a].mode, a)
  }

  lemma BegunNext(img: Image, dec: Decoded, dec': Decoded, regs: Registered, regs': Registered, s: Seed)
    requires Begun(img, dec, regs) && dec.Keys <= dec'.Keys
    requires regs' == regs || (regs' == regs[s.addr := s] && Settled(img, dec', s.mode, s.addr))
    ensures Begun(img, dec', regs')
  {
    hide Settled;
    forall a | a in regs' ensures Settled(img, dec', regs'[a].mode, a) {
      if a in regs && regs'[a] == regs[a] {
        SettledStays(img, dec, dec', regs[a].mode, a);
      }
    }
  }

  function SumInsns(funcs: seq<Found>): nat {
    if funcs == [] then 0 else SumInsns(funcs[..|funcs| - 1]) + funcs[|funcs| - 1].insns
  }

  function SeedOf(f: Found): Seed {
    Seed(f.addr, f.mode, f.heur)
  }

  /** The registered functions: pairwise distinct addresses, all halfwords of the segment. */
  ghost predicate Registry(img: Image, funcs: seq<Found>, regs: Registered) {
    && (forall a :: a in regs ==> a % 2 == 0 && img.InSegment(a))
    && (forall f :: f in funcs ==> f.addr in regs && regs[f.addr] == SeedOf(f))
    && (forall a :: a in regs ==> exists k :: 0 <= k < |funcs| && funcs[k].addr == a)
    && (forall i, j :: 0 <= i < j < |funcs| ==> funcs[i].addr != funcs[j].addr)
  }

  lemma NotYetFunction(img: Image, funcs: seq<Found>, regs: Registered, t: nat)
    requires Registry(img, funcs, regs) && t !in regs
    ensures !IsFunction(funcs, t)
  {
    forall k | 0 <= k < |funcs| ensures funcs[k].addr != t {
      assert funcs[k] in funcs;
    }
  }

  lemma FuncsDiffer(img: Image, funcs: seq<Found>, regs: Registered)
    requires Registry(img, funcs, regs)
    ensures forall i, j :: 0 <= i < j < |funcs| ==> funcs[i].addr != funcs[j].addr
  {
  }

  lemma RegistrySnoc(img: Image, funcs: seq<Found>, regs: Registered, f: Found)
    requires Registry(img, funcs, regs) && f.addr !in regs && f.addr % 2 == 0 && img.InSegment(f.addr)
    ensures Registry(img, funcs + [f], regs[f.addr := SeedOf(f)])
  {
    var w := funcs + [f];
    var regs' := regs[f.addr := SeedOf(f)];
    forall a | a in regs' ensures exists k :: 0 <= k < |w| && w[k].addr == a {
      if a == f.addr {
        assert w[|funcs|].addr == a;
      } else {
        var k :| 0 <= k < |funcs| && funcs[k].addr == a;
        assert w[k].addr == a;
      }
    }
    forall i | 0 <= i < |funcs| ensures funcs[i].addr != f.addr { assert funcs[i] in funcs; }
  }

  lemma RegistryUpdate(img: Image, funcs: seq<Found>, regs: Registered, f: Found)
    requires funcs != [] && Registry(img, funcs, regs) && SeedOf(f) == SeedOf(funcs[|funcs| - 1])
    ensures Registry(img, funcs[|funcs| - 1 := f], regs)
  {
    hide Image.InSegment;
    var w := funcs[|funcs| - 1 := f];
    assert forall k :: 0 <= k < |w| ==> w[k].addr == funcs[k].addr && SeedOf(w[k]) == SeedOf(funcs[k]);
    SameSeeds(img, funcs, w, regs);
  }

  /** Registration looks at nothing but the seeds. */
  lemma SameSeeds(img: Image, funcs: seq<Found>, w: seq<Found>, regs: Registered)
    requires Registry(img, funcs, regs) && |w| == |funcs|
    requires forall k :: 0 <= k < |w| ==> w[k].addr == funcs[k].addr && SeedOf(w[k]) == SeedOf(funcs[k])
    ensures Registry(img, w, regs)
  {
    hide Image.InSegment, SeedOf;
    forall a | a in regs ensures exists k :: 0 <= k < |w| && w[k].addr == a {
      var k :| 0 <= k < |funcs| && funcs[k].addr == a;
      assert w[k].addr == a;
    }
    forall g | g in w ensures g.addr in regs && regs[g.addr] == SeedOf(g) {
      var k :| 0 <= k < |w| && w[k] == g;
      assert funcs[k] in funcs;
    }
  }

  lemma SumOfUpdate(funcs: seq<Found>, f: Found)
    requires funcs != []
    ensures SumInsns(funcs[|funcs| - 1 := f]) == SumInsns(funcs) - funcs[|funcs| - 1].insns + f.insns
  {
    var n := |funcs| - 1;
    assert funcs[n := f][..n] == funcs[..n];
  }

  lemma SumOfSnoc(funcs: seq<Found>, f: Found)
    ensures SumInsns(funcs + [f]) == SumInsns(funcs) + f.insns
  {
    assert (funcs + [f])[..|funcs|] == funcs;
  }

  lemma AskedGrows(stubs: seq<nat>, dec: Decoded, q: seq<Seed>, s: Seed)
    requires CallsAsked(stubs, dec, q)
    ensures CallsAsked(stubs, dec, q + [s]) && Asked(q + [s], s.addr)
  {
    var w := q + [s];
    assert w[|q|] == s;
    forall t | Asked(q, t) ensures Asked(w, t) {
      var k :| 0 <= k < |q| && q[k].addr == t;
      assert w[k].addr == t;
    }
  }

  lemma CallNoted(stubs: seq<nat>, dec: Decoded, q: seq<Seed>, a: nat, at: At)
    requires CallsAsked(stubs, dec, q)
    requires Followed(stubs, at) ==> Asked(q, at.i.target.value)
    ensures CallsAsked(stubs, dec[a := at], q)
  {
    hide Asked, Refused;
  }

  // ----- why things are found

  /** The mode a direct call's target is decoded in. */
  function CalleeMode(at: At): Mode {
    if at.i.switches then Flip(at.mode) else at.mode
  }

  /** A followed call asks for exactly this seed. */
  ghost predicate Called(stubs: seq<nat>, dec: Decoded, s: Seed) {
    exists a :: a in dec && Asks(stubs, dec[a], s)
  }

  predicate Asks(stubs: seq<nat>, at: At, s: Seed) {
    Followed(stubs, at) && s == Seed(at.i.target.value, CalleeMode(at), false)
  }

  /** A run of local flow from `start` to `a`, every instruction decoded in mode `m`. */
  ghost predicate Trail(img: Image, m: Mode, start: nat, p: seq<nat>, a: nat) {
    && p != [] && p[0] == start && p[|p| - 1] == a
    && forall k :: 0 <= k < |p| - 1 ==> Steps(img, m, p[k], p[k + 1])
  }

  predicate Steps(img: Image, m: Mode, a: nat, b: nat) {
    img.decode(a, m).Some? && Successor(img.decode(a, m).value, b)
  }

  ghost predicate FlowsTo(img: Image, m: Mode, start: nat, a: nat) {
    exists p :: Trail(img, m, start, p, a)
  }

  /** `a` was decoded in mode `m` by the walk of the function at `r`. */
  predicate DecodedBy(dec: Decoded, owner: Owners, m: Mode, r: nat, a: nat) {
    a in dec && dec[a].mode == m && a in owner && owner[a] == r
  }

  /** Up to its last address the trail went over instructions that this walk decoded. */
  ghost predicate Walked(dec: Decoded, owner: Owners, m: Mode, r: nat, p: seq<nat>) {
    forall k :: 0 <= k < |p| - 1 ==> DecodedBy(dec, owner, m, r, p[k])
  }

  /** The walk of the function at `r` came to `a`. */
  ghost predicate WalkedTo(img: Image, dec: Decoded, owner: Owners, m: Mode, r: nat, a: nat) {
    exists p :: Trail(img, m, r, p, a) && Walked(dec, owner, m, r, p)
  }

  lemma WalkedStart(img: Image, dec: Decoded, owner: Owners, m: Mode, r: nat)
    ensures WalkedTo(img, dec, owner, m, r, r)
  {
    assert Trail(img, m, r, [r], r) && Walked(dec, owner, m, r, [r]);
  }

  lemma WalkedOn(img: Image, dec: Decoded, owner: Owners, m: Mode, r: nat, a: nat, b: nat)
    requires WalkedTo(img, dec, owner, m, r, a) && DecodedBy(dec, owner, m, r, a) && Steps(img, m, a, b)
    ensures WalkedTo(img, dec, owner, m, r, b)
  {
    hide Steps, DecodedBy;
    var p :| Trail(img, m, r, p, a) && Walked(dec, owner, m, r, p);
    var q := p + [b];
    forall k | 0 <= k < |q| - 1 ensures Steps(img, m, q[k], q[k + 1]) && DecodedBy(dec, owner, m, r, q[k]) {
      if k < |p| - 1 {
        assert Steps(img, m, p[k], p[k + 1]) && DecodedBy(dec, owner, m, r, p[k]);
      }
    }
    assert Trail(img, m, r, q, b) && Walked(dec, owner, m, r, q);
  }

  /** A trail walked stays walked. */
  lemma WalkedStays(img: Image, dec: Decoded, owner: Owners, m: Mode, r: nat, a: nat, b: nat, at: At, g: nat)
    requires WalkedTo(img, dec, owner, m, r, a) && b !in dec
    ensures WalkedTo(img, dec[b := at], owner[b := g], m, r, a)
  {
    hide Steps;
    var p :| Trail(img, m, r, p, a) && Walked(dec, owner, m, r, p);
    assert Walked(dec[b := at], owner[b := g], m, r, p) by {
      forall k | 0 <= k < |p| - 1 ensures DecodedBy(dec[b := at], owner[b := g], m, r, p[k]) {
        assert DecodedBy(dec, owner, m, r, p[k]);
      }
    }
  }

  lemma WalkedFlows(img: Image, dec: Decoded, owner: Owners, m: Mode, r: nat, a: nat)
    requires WalkedTo(img, dec, owner, m, r, a)
    ensures FlowsTo(img, m, r, a)
  {
    hide Steps;
  }

  /** Nothing is found without a reason: every seed was given or is asked for by a call,
      every function was a seed, every instruction lies on the flow of a function. */
  ghost predicate Grounded(img: Image, stubs: seq<nat>, given: set<Seed>, q: seq<Seed>, dec: Decoded, regs: Registered,
                           owner: Owners) {
    && (forall s :: s in q ==> s in given || Called(stubs, dec, s))
    && (forall a :: a in regs ==> regs[a].addr == a && regs[a] in q)
    && owner.Keys == dec.Keys
    && (forall a :: a in owner ==> OnFlowOf(img, dec, owner, dec[a].mode, regs, owner[a], a))
  }

  /** `a` lies on the flow of the function registered at `r`, in its mode, and was
      walked to. */
  ghost predicate OnFlowOf(img: Image, dec: Decoded, owner: Owners, m: Mode, regs: Registered, r: nat, a: nat) {
    r in regs && regs[r].mode == m && WalkedTo(img, dec, owner, m, r, a)
  }

  /** More seeds, all given. */
  lemma GroundedGiven(img: Image, stubs: seq<nat>, given: set<Seed>, q: seq<Seed>, dec: Decoded, regs: Registered,
                      owner: Owners, s: Seed)
    requires Grounded(img, stubs, given, q, dec, regs, owner)
    ensures Grounded(img, stubs, given + {s}, q + [s], dec, regs, owner)
  {
    hide OnFlowOf, Called;
  }

  /** Decoding `a` on the flow of a registered function, with the seed its call asks for. */
  lemma GroundedDecode(img: Image, stubs: seq<nat>, given: set<Seed>, q: seq<Seed>, dec: Decoded, regs: Registered,
                       owner: Owners, q': seq<Seed>, a: nat, at: At, r: nat)
    requires Grounded(img, stubs, given, q, dec, regs, owner) && a !in dec
    requires q' == q || (Followed(stubs, at) && q' == q + [Seed(at.i.target.value, CalleeMode(at), false)])
    requires OnFlowOf(img, dec, owner, at.mode, regs, r, a)
    ensures Grounded(img, stubs, given, q', dec[a := at], regs, owner[a := r])
  {
    hide WalkedTo, Followed;
    var dec' := dec[a := at];
    forall b | b in owner[a := r] ensures OnFlowOf(img, dec', owner[a := r], dec'[b].mode, regs, owner[a := r][b], b) {
      assert b == a || (b in owner && OnFlowOf(img, dec, owner, dec[b].mode, regs, owner[b], b));
      WalkedStays(img, dec, owner, dec'[b].mode, owner[a := r][b], b, a, at, r);
    }
    forall s | s in q' ensures s in given || Called(stubs, dec', s) {
      if s in q {
        if s !in given {
          var b :| b in dec && Asks(stubs, dec[b], s);
          assert b in dec' && dec'[b] == dec[b];
        }
      } else {
        assert a in dec' && Asks(stubs, dec'[a], s);
      }
    }
  }

  /** Registering a new seed of the queue. */
  lemma GroundedRegister(img: Image, stubs: seq<nat>, given: set<Seed>, q: seq<Seed>, dec: Decoded, regs: Registered,
                         owner: Owners, s: Seed)
    requires Grounded(img, stubs, given, q, dec, regs, owner) && s in q && s.addr !in regs
    ensures Grounded(img, stubs, given, q, dec, regs[s.addr := s], owner)
  {
    hide WalkedTo, Called;
  }

  // ----- what each function is credited with

  predicate IsFunction(funcs: seq<Found>, t: nat) {
    exists k :: 0 <= k < |funcs| && funcs[k].addr == t
  }

  ghost function OwnedBy(owner: Owners, f: nat): set<nat> {
    set a | a in owner && owner[a] == f
  }

  /** A function counts the instructions its walk decoded and ends where the last of
      them does. */
  ghost predicate TallyOf(dec: Decoded, owner: Owners, f: Found)
    requires owner.Keys == dec.Keys
  {
    && f.insns == |OwnedBy(owner, f.addr)|
    && (forall a :: a in OwnedBy(owner, f.addr) ==> a + dec[a].i.width <= f.end)
    && (if f.insns == 0 then f.end == 0
        else exists a :: a in OwnedBy(owner, f.addr) && f.end == a + dec[a].i.width)
  }

  ghost predicate Tallied(funcs: seq<Found>, dec: Decoded, owner: Owners) {
    && owner.Keys == dec.Keys
    && (forall a :: a in owner ==> IsFunction(funcs, owner[a]))
    && (forall k :: 0 <= k < |funcs| ==> TallyOf(dec, owner, funcs[k]))
  }

  function Credited(f: Found, a: nat, i: Insn): Found {
    f.(insns := f.insns + 1, end := if a + i.width > f.end then a + i.width else f.end)
  }

  lemma TallyCredited(dec: Decoded, owner: Owners, f: Found, a: nat, at: At)
    requires owner.Keys == dec.Keys && a !in dec && TallyOf(dec, owner, f)
    ensures TallyOf(dec[a := at], owner[a := f.addr], Credited(f, a, at.i))
  {
    var owner' := owner[a := f.addr];
    assert OwnedBy(owner', f.addr) == OwnedBy(owner, f.addr) + {a};
    var f' := Credited(f, a, at.i);
    if f'.end == f.end && f.insns > 0 {
      var b :| b in OwnedBy(owner, f.addr) && f.end == b + dec[b].i.width;
      assert b in OwnedBy(owner', f.addr);
    } else {
      assert a in OwnedBy(owner', f.addr);
    }
  }

  lemma TallyOther(dec: Decoded, owner: Owners, f: Found, a: nat, at: At, g: nat)
    requires owner.Keys == dec.Keys && a !in dec && g != f.addr && TallyOf(dec, owner, f)
    ensures TallyOf(dec[a := at], owner[a := g], f)
  {
    assert OwnedBy(owner[a := g], f.addr) == OwnedBy(owner, f.addr);
  }

  /** One more instruction, credited to the function being walked. */
  lemma TallyInsn(funcs: seq<Found>, dec: Decoded, owner: Owners, a: nat, at: At)
    requires funcs != [] && Tallied(funcs, dec, owner) && a !in dec
    requires forall i, j :: 0 <= i < j < |funcs| ==> funcs[i].addr != funcs[j].addr
    ensures var n := |funcs| - 1;
            Tallied(funcs[n := Credited(funcs[n], a, at.i)], dec[a := at], owner[a := funcs[n].addr])
  {
    hide TallyOf, Credited, IsFunction;
    var n := |funcs| - 1;
    var w := funcs[n := Credited(funcs[n], a, at.i)];
    CreditedKeeps(funcs[n], a, at.i);
    forall t | IsFunction(funcs, t) ensures IsFunction(w, t) {
      StaysFunction(funcs, w, t);
    }
    SomeFunction(funcs, n);
    forall k | 0 <= k < |w| ensures TallyOf(dec[a := at], owner[a := funcs[n].addr], w[k]) {
      if k == n {
        TallyCredited(dec, owner, funcs[n], a, at);
      } else {
        TallyOther(dec, owner, funcs[k], a, at, funcs[n].addr);
      }
    }
  }

  lemma CreditedKeeps(f: Found, a: nat, i: Insn)
    ensures Credited(f, a, i).addr == f.addr && SeedOf(Credited(f, a, i)) == SeedOf(f)
    ensures Credited(f, a, i).insns == f.insns + 1
  {
  }

  lemma StaysFunction(funcs: seq<Found>, w: seq<Found>, t: nat)
    requires IsFunction(funcs, t) && |funcs| <= |w| && forall k :: 0 <= k < |funcs| ==> w[k].addr == funcs[k].addr
    ensures IsFunction(w, t)
  {
    var k :| 0 <= k < |funcs| && funcs[k].addr == t;
    assert w[k].addr == t;
  }

  lemma SomeFunction(funcs: seq<Found>, k: nat)
    requires k < |funcs|
    ensures IsFunction(funcs, funcs[k].addr)
  {
  }

  /** A new function starts with nothing. */
  lemma TallyRegister(funcs: seq<Found>, dec: Decoded, owner: Owners, f: Found)
    requires Tallied(funcs, dec, owner) && !IsFunction(funcs, f.addr) && f.insns == 0 == f.end
    ensures Tallied(funcs + [f], dec, owner)
  {
    hide IsFunction;
    var w := funcs + [f];
    forall t | IsFunction(funcs, t) ensures IsFunction(w, t) {
      StaysFunction(funcs, w, t);
    }
    assert OwnedBy(owner, f.addr) == {};
    forall k | 0 <= k < |w| ensures TallyOf(dec, owner, w[k]) {
      if k < |funcs| {
        assert w[k] == funcs[k];
      }
    }
  }

  /** Block starts that the walk of the function at `r` came to. */
  ghost predicate OnFlow(img: Image, dec: Decoded, owner: Owners, m: Mode, r: nat, pending: seq<nat>) {
    forall p :: p in pending ==> WalkedTo(img, dec, owner, m, r, p)
  }

  lemma OnFlowOn(img: Image, dec: Decoded, owner: Owners, m: Mode, r: nat, pending: seq<nat>, a: nat, i: Insn,
                 pending': seq<nat>)
    requires OnFlow(img, dec, owner, m, r, pending + [a]) && img.decode(a, m) == Some(i) && a !in dec
    requires forall p :: p in pending' <==> p in pending || Successor(i, p)
    ensures OnFlow(img, dec[a := At(m, i)], owner[a := r], m, r, pending')
  {
    hide WalkedTo, Successor;
    var dec', owner' := dec[a := At(m, i)], owner[a := r];
    assert a in pending + [a];
    WalkedStays(img, dec, owner, m, r, a, a, At(m, i), r);
    forall p | p in pending' ensures WalkedTo(img, dec', owner', m, r, p) {
      if p in pending {
        assert p in pending + [a];
        WalkedStays(img, dec, owner, m, r, p, a, At(m, i), r);
      } else {
        WalkedOn(img, dec', owner', m, r, a, p);
      }
    }
  }

  lemma OnFlowLess(img: Image, dec: Decoded, owner: Owners, m: Mode, r: nat, pending: seq<nat>, a: nat)
    requires OnFlow(img, dec, owner, m, r, pending + [a])
    ensures OnFlow(img, dec, owner, m, r, pending) && WalkedTo(img, dec, owner, m, r, a)
  {
    hide WalkedTo;
    assert a in pending + [a];
    forall p | p in pending ensures WalkedTo(img, dec, owner, m, r, p) {
      assert p in pending + [a];
    }
  }

  // ----- marks

  /** A bitmap holds exactly the halfwords of `addrs`. */
  ghost predicate MarksAre(img: Image, marked: set<nat>, addrs: set<nat>) {
    forall a: nat :: a % 2 == 0 && img.InSegment(a) ==> ((a - img.base) / 2 in marked <==> a in addrs)
  }

  lemma MarkOne(img: Image, marked: set<nat>, addrs: set<nat>, a: nat)
    requires MarksAre(img, marked, addrs) && a % 2 == 0 && img.InSegment(a) && Aligned(img)
    ensures MarksAre(img, marked + {(a - img.base) / 2}, addrs + {a})
  {
  }

  lemma OffsetInBits(img: Image, a: nat, bytes: nat)
    requires img.InSegment(a) && 16 * bytes > img.len
    ensures a >= img.base && (a - img.base) / 2 < 8 * bytes
  {
  }

  lemma MarkDecodedInsn(img: Image, marked: set<nat>, dec: Decoded, a: nat, at: At)
    requires MarksAre(img, marked, dec.Keys) && a % 2 == 0 && img.InSegment(a) && Aligned(img) && a !in dec
    ensures MarksAre(img, marked + {(a - img.base) / 2}, (dec[a := at]).Keys) && |dec[a := at]| == |dec| + 1
  {
    MarkOne(img, marked, dec.Keys, a);
    assert (dec[a := at]).Keys == dec.Keys + {a};
  }

  lemma {:induction false} InSegmentBounded(img: Image, addrs: set<nat>, n: nat)
    requires forall a :: a in addrs ==> img.base <= a < img.base + n
    ensures |addrs| <= n
    decreases n
  {
    if n > 0 {
      InSegmentBounded(img, addrs - {img.base + n - 1}, n - 1);
    } else {
      assert addrs == {};
    }
  }

  /** The state of vf_discover. */
  class Finder {
    const img: Image
    const stubs: seq<nat>
    const seen: Marks
    const fseen: Marks
    var q: seq<Seed>
    var funcs: seq<Found>
    var insnsTotal: nat
    var armRefused: nat
    var indirectSites: nat
    ghost var dec: Decoded
    ghost var regs: Registered
    ghost var given: set<Seed>
    ghost var owner: Owners

    ghost predicate Valid()
      reads this, seen, seen.bits, fseen, fseen.bits
    {
      && img.Decodes() && Aligned(img) && Sorted(stubs)
      && seen != fseen && seen.bits != fseen.bits && seen.Valid() && fseen.Valid()
      && 16 * seen.bits.Length > img.len && 16 * fseen.bits.Length > img.len
      && MarksAre(img, seen.marked, dec.Keys) && MarksAre(img, fseen.marked, regs.Keys)
      && Registry(img, funcs, regs)
      && (forall s :: s in q ==> s.addr % 2 == 0)
      && CallsAsked(stubs, dec, q) && Grounded(img, stubs, given, q, dec, regs, owner)
      && Tallied(funcs, dec, owner)
      && insnsTotal == |dec| == SumInsns(funcs)
    }

    /** The function being walked. */
    ghost predicate Current(r: nat)
      reads this
    {
      funcs != [] && funcs[|funcs| - 1].addr == r
    }

    /** Empty maps, and the queue of the principled seeds. */
    constructor (img: Image, stubs: seq<nat>, seeds: seq<Seed>)
      requires img.Decodes() && Aligned(img) && Sorted(stubs)
      requires forall s :: s in seeds ==> s.addr % 2 == 0
      ensures Valid() && fresh(seen) && fresh(seen.bits) && fresh(fseen) && fresh(fseen.bits)
      ensures this.img == img && this.stubs == stubs && q == seeds && dec == map[] && regs == map[]
      ensures given == set s | s in seeds
    {
      this.img, this.stubs, q := img, stubs, seeds;
      seen := new Marks(img.len / 2);
      fseen := new Marks(img.len / 2);
      funcs, insnsTotal, armRefused, indirectSites, dec, regs, given := [], 0, 0, 0, map[], map[], set s | s in seeds;
      owner := map[];
      new;
      hide Image.Decodes, Aligned, Sorted, MarksAre, Registry, CallsAsked, Grounded, SumInsns, Marks.Valid, Tallied;
      assert dec.Keys == {} && regs.Keys == {};
      NothingFound(img, stubs, given, seeds);
    }

    /** The tests at the top of the inner loop of walk. */
    method Enter(a: nat, m: Mode) returns (d: Option<Insn>)
      requires Valid() && a % 2 == 0
      ensures d.None? ==> Settled(img, dec, m, a)
      ensures d.Some? ==> img.InSegment(a) && a !in dec && img.decode(a, m) == d
    {
      hide Image.Decodes, Aligned, Registry, CallsAsked, Marks.Valid, SumInsns, MarksAre, Grounded, Tallied;
      if a < img.base || a >= img.base + img.len {
        return None;
      }
      MarkAt(img, seen.marked, dec.Keys, a);
      var s := seen.Get(a - img.base);
      if s {
        return None;
      }
      d := img.decode(a, m);
    }

    /** Records a newly decoded instruction of the function being walked. */
    method Note(a: nat, m: Mode, i: Insn, ghost r: nat)
      requires Valid() && Current(r) && a % 2 == 0
      requires img.InSegment(a) && a !in dec && img.decode(a, m) == Some(i)
      requires OnFlowOf(img, dec, owner, m, regs, r, a)
      modifies this, seen, seen.bits
      ensures Valid() && Current(r) && dec == old(dec)[a := At(m, i)] && regs == old(regs)
      ensures owner == old(owner)[a := r]
      ensures old(q) <= q && given == old(given)
    {
      hide Image.Decodes, Aligned, Registry, CallsAsked, Marks.Valid, SumInsns, MarksAre, Grounded, OnFlowOf, Followed;
      hide Tallied, Credited;
      GroundedBoth(a, m, i, r);
      FuncsDiffer(img, funcs, regs);
      TallyInsn(funcs, dec, owner, a, At(m, i));
      CreditedKeeps(funcs[|funcs| - 1], a, i);
      CountInsn(a, i);
      NoteCall(a, m, i);
      MarkDecoded(a, m, i);
      owner := owner[a := r];
    }

    /** Either way the queue goes, everything stays grounded. */
    lemma GroundedBoth(a: nat, m: Mode, i: Insn, r: nat)
      requires Grounded(img, stubs, given, q, dec, regs, owner) && a !in dec
      requires OnFlowOf(img, dec, owner, m, regs, r, a)
      ensures Grounded(img, stubs, given, q, dec[a := At(m, i)], regs, owner[a := r])
      ensures Followed(stubs, At(m, i)) ==>
                Grounded(img, stubs, given, q + [Seed(i.target.value, CalleeMode(At(m, i)), false)], dec[a := At(m, i)],
                         regs, owner[a := r])
    {
      hide Grounded, OnFlowOf;
      GroundedDecode(img, stubs, given, q, dec, regs, owner, q, a, At(m, i), r);
      if Followed(stubs, At(m, i)) {
        var asked := Seed(i.target.value, CalleeMode(At(m, i)), false);
        GroundedDecode(img, stubs, given, q, dec, regs, owner, q + [asked], a, At(m, i), r);
      }
    }

    /** `seen_set`, and the ghost record of what was decoded there. */
    method MarkDecoded(a: nat, m: Mode, i: Insn)
      requires Aligned(img) && seen.Valid() && 16 * seen.bits.Length > img.len
      requires MarksAre(img, seen.marked, dec.Keys) && a % 2 == 0 && img.InSegment(a) && a !in dec
      requires CallsAsked(stubs, dec, q)
      requires Followed(stubs, At(m, i)) ==> Asked(q, i.target.value)
      modifies `dec, seen, seen.bits
      ensures seen.Valid() && dec == old(dec)[a := At(m, i)] && |dec| == |old(dec)| + 1
      ensures MarksAre(img, seen.marked, dec.Keys) && CallsAsked(stubs, dec, q)
    {
      hide Aligned, CallsAsked, Marks.Valid, MarksAre, Asked, Refused, Followed, Image.InSegment;
      OffsetInBits(img, a, seen.bits.Length);
      MarkDecodedInsn(img, seen.marked, dec, a, At(m, i));
      CallNoted(stubs, dec, q, a, At(m, i));
      seen.Set(a - img.base);
      dec := dec[a := At(m, i)];
    }

    /** The totals, and the extent of the function being walked. */
    method CountInsn(a: nat, i: Insn)
      requires funcs != [] && Registry(img, funcs, regs)
      modifies `insnsTotal, `funcs
      ensures Registry(img, funcs, regs)
      ensures funcs == old(funcs)[|old(funcs)| - 1 := Credited(old(funcs)[|old(funcs)| - 1], a, i)]
      ensures insnsTotal == old(insnsTotal) + 1 && SumInsns(funcs) == old(SumInsns(funcs)) + 1
    {
      hide Registry, SumInsns;
      insnsTotal := insnsTotal + 1;
      var f := funcs[|funcs| - 1];
      var f' := f.(insns := f.insns + 1, end := if a + i.width > f.end then a + i.width else f.end);
      RegistryUpdate(img, funcs, regs, f');
      SumOfUpdate(funcs, f');
      funcs := funcs[|funcs| - 1 := f'];
    }

    /** A direct call seeds its target unless it is refused; the rest is counted. */
    method NoteCall(a: nat, m: Mode, i: Insn)
      requires img.Decodes() && Aligned(img) && Sorted(stubs) && img.decode(a, m) == Some(i) && a % 2 == 0
      requires CallsAsked(stubs, dec, q) && forall s :: s in q ==> s.addr % 2 == 0
      modifies `q, `armRefused, `indirectSites
      ensures CallsAsked(stubs, dec, q) && forall s :: s in q ==> s.addr % 2 == 0
      ensures q == if Followed(stubs, At(m, i)) then old(q) + [Seed(i.target.value, CalleeMode(At(m, i)), false)]
                   else old(q)
      ensures Followed(stubs, At(m, i)) ==> Asked(q, i.target.value)
    {
      hide CallsAsked, Asked;
      if i.cls == Call {
        if i.target.Some? {
          var cm := if i.switches then Flip(m) else m;
          var at := Find(stubs, ClearThumb(i.target.value));
          if cm == A32 && m == T32 && at == |stubs| {
            armRefused := armRefused + 1;
          } else {
            AskedGrows(stubs, dec, q, Seed(i.target.value, cm, false));
            q := q + [Seed(i.target.value, cm, false)];
          }
        } else {
          indirectSites := indirectSites + 1;
        }
      } else if i.cls == Indirect {
        indirectSites := indirectSites + 1;
      }
    }

    /** One instruction of the inner loop: where flow goes on, and the block starts
        still waiting. */
    method Visit(a: nat, m: Mode, local: seq<nat>, ghost r: nat) returns (next: Option<nat>, local': seq<nat>)
      requires Valid() && Current(r) && a % 2 == 0 && Descent(img, dec, m, local + [a])
      requires r in regs && regs[r].mode == m && OnFlow(img, dec, owner, m, r, local + [a])
      modifies this, seen, seen.bits
      ensures Valid() && Current(r) && regs == old(regs) && given == old(given) && old(q) <= q
      ensures old(dec.Keys) <= dec.Keys
      ensures next.Some? ==> next.value % 2 == 0 && |dec| > |old(dec)|
      ensures |dec| > |old(dec)| || (dec == old(dec) && local' == local)
      ensures Settled(img, dec, m, a)
      ensures Descent(img, dec, m, local' + (if next.Some? then [next.value] else []))
      ensures OnFlow(img, dec, owner, m, r, local' + (if next.Some? then [next.value] else []))
    {
      hide Image.Decodes, Aligned, Registry, CallsAsked, Marks.Valid, SumInsns, MarksAre, Descent, Settled, Successor;
      hide Grounded, Tallied, OnFlow, WalkedTo;
      OnFlowLess(img, dec, owner, m, r, local, a);
      var d := Enter(a, m);
      if d.None? {
        DropSettled(img, dec, m, local, a);
        assert local + [] == local;
        return None, local;
      }
      var i := d.value;
      Note(a, m, i, r);
      assert a !in old(dec);
      assert dec.Keys == old(dec.Keys) + {a};
      DecodedInsn(img, a, m);
      local' := if i.cls == Branch && i.target.Some? then local + [i.target.value] else local;
      next := if Continues(i) then Some(a + i.width) else None;
      ghost var pending := local' + (if next.Some? then [next.value] else []);
      SuccessorsWait(i, local, local', next);
      TakeDecoded(img, old(dec), m, local, a, i, pending);
      OnFlowOn(img, old(dec), old(owner), m, r, local, a, i, pending);
      DecodedIsSettled(img, dec, m, a);
      NextAligned(a, i);
    }

    /** The inner loop, from a block start. */
    method Block(start: nat, m: Mode, local: seq<nat>, ghost r: nat) returns (local': seq<nat>)
      requires Valid() && Current(r) && start % 2 == 0 && Descent(img, dec, m, local + [start])
      requires r in regs && regs[r].mode == m && OnFlow(img, dec, owner, m, r, local + [start])
      modifies this, seen, seen.bits
      ensures Valid() && Current(r) && regs == old(regs) && given == old(given) && old(q) <= q
      ensures old(dec.Keys) <= dec.Keys
      ensures |dec| > |old(dec)| || (dec == old(dec) && local' == local)
      ensures Descent(img, dec, m, local') && OnFlow(img, dec, owner, m, r, local')
      ensures Settled(img, dec, m, start)
    {
      hide Image.Decodes, Aligned, Registry, CallsAsked, Marks.Valid, SumInsns;
      hide MarksAre, Descent, Grounded, Tallied, OnFlow, Settled;
      var next;
      next, local' := Visit(start, m, local, r);
      while next.Some?
        invariant Valid() && Current(r) && regs == old(regs) && given == old(given) && old(q) <= q
        invariant old(dec.Keys) <= dec.Keys
        invariant next.Some? ==> next.value % 2 == 0 && |dec| > |old(dec)|
        invariant |dec| > |old(dec)| || (dec == old(dec) && local' == local)
        invariant Settled(img, dec, m, start)
        invariant Descent(img, dec, m, local' + (if next.Some? then [next.value] else []))
        invariant OnFlow(img, dec, owner, m, r, local' + (if next.Some? then [next.value] else []))
        decreases img.len - |dec|, next.Some?
      {
        DecodedBounded(img, dec, m, local' + [next.value]);
        ghost var before := dec;
        next, local' := Visit(next.value, m, local', r);
        SettledStays(img, before, dec, m, start);
        DecodedBounded(img, dec, m, local' + (if next.Some? then [next.value] else []));
      }
      assert local' + [] == local';
    }

    /** `walk`: afterwards the start is settled, and every decoded instruction's successors
        are again. */
    method WalkFrom(start: nat, m: Mode)
      requires Valid() && Current(start) && start % 2 == 0 && Descent(img, dec, m, [])
      requires start in regs && regs[start].mode == m
      modifies this, seen, seen.bits
      ensures Valid() && Current(start) && regs == old(regs) && given == old(given) && old(q) <= q
      ensures Descent(img, dec, m, []) && Settled(img, dec, m, start)
      ensures old(dec.Keys) <= dec.Keys
    {
      hide Image.Decodes, Aligned, Registry, CallsAsked, Marks.Valid, SumInsns;
      hide MarksAre, Descent, Grounded, Tallied, WalkedTo, OnFlow, Settled;
      var local := [start];
      StartDescent(img, dec, m, start);
      StartOnFlow(img, dec, owner, m, start);
      while |local| > 0
        invariant Valid() && Current(start) && regs == old(regs) && given == old(given) && old(q) <= q
        invariant old(dec.Keys) <= dec.Keys
        invariant Descent(img, dec, m, local) && OnFlow(img, dec, owner, m, start, local)
        invariant local == [start] || Settled(img, dec, m, start)
        decreases img.len - |dec|, |local|
      {
        var a := local[|local| - 1];
        assert local[..|local| - 1] + [a] == local;
        PendingAligned(img, dec, m, local, a);
        DecodedBounded(img, dec, m, local);
        ghost var before := dec;
        local := Block(a, m, local[..|local| - 1], start);
        if a != start {
          SettledStays(img, before, dec, m, start);
        }
        DecodedBounded(img, dec, m, local);
      }
      assert local == [];
    }

    /** `add_func`, gated by the map of function entries rather than of instructions. */
    method Register(s: Seed) returns (added: bool)
      requires Valid() && s in q
      modifies this, fseen, fseen.bits
      ensures Valid() && dec == old(dec) && q == old(q) && given == old(given)
      ensures added <==> img.InSegment(s.addr) && s.addr !in old(regs)
      ensures regs == if added then old(regs)[s.addr := s] else old(regs)
      ensures added ==> Current(s.addr)
    {
      hide Image.Decodes, Aligned, Registry, CallsAsked, Marks.Valid, SumInsns, MarksAre, Grounded, Tallied;
      if s.addr < img.base || s.addr >= img.base + img.len {
        return false;
      }
      MarkAt(img, fseen.marked, regs.Keys, s.addr);
      var known := fseen.Get(s.addr - img.base);
      if known {
        return false;
      }
      MarkOne(img, fseen.marked, regs.Keys, s.addr);
      fseen.Set(s.addr - img.base);
      GroundedRegister(img, stubs, given, q, dec, regs, owner, s);
      Append(s);
      added := true;
    }

    /** A new record, of no instructions yet, at the end of the function list. */
    method Append(s: Seed)
      requires Registry(img, funcs, regs) && Tallied(funcs, dec, owner) && s.addr !in regs
      requires img.InSegment(s.addr) && s.addr % 2 == 0
      modifies `funcs, `regs
      ensures funcs == old(funcs) + [Found(s.addr, s.mode, 0, 0, s.heur)] && regs == old(regs)[s.addr := s]
      ensures regs.Keys == old(regs.Keys) + {s.addr}
      ensures Registry(img, funcs, regs) && Tallied(funcs, dec, owner) && SumInsns(funcs) == SumInsns(old(funcs))
    {
      hide Registry, SumInsns, Tallied;
      var f := Found(s.addr, s.mode, 0, 0, s.heur);
      NotYetFunction(img, funcs, regs, s.addr);
      TallyRegister(funcs, dec, owner, f);
      RegistrySnoc(img, funcs, regs, f);
      SumOfSnoc(funcs, f);
      funcs := funcs + [f];
      assert (regs[s.addr := s]).Keys == regs.Keys + {s.addr};
      regs := regs[s.addr := s];
    }

    /** The outer worklist: registers and walks every seed, old and new. */
    method Drain(from: nat)
      requires Valid() && from <= |q| && Served(img, q, from, regs.Keys) && Quiet(img, dec) && Begun(img, dec, regs)
      modifies this, seen, seen.bits, fseen, fseen.bits
      ensures Valid() && Quiet(img, dec) && Served(img, q, |q|, regs.Keys) && Begun(img, dec, regs)
      ensures old(q) <= q && Extends(old(regs), regs) && given == old(given) && old(dec.Keys) <= dec.Keys
    {
      hide Image.Decodes, Aligned, Registry, CallsAsked, Marks.Valid, SumInsns;
      hide MarksAre, Descent, Served, Begun, Settled, Grounded, Tallied;
      var head: nat := from;
      while head < |q|
        invariant Valid() && head <= |q| && Served(img, q, head, regs.Keys) && Quiet(img, dec)
        invariant Begun(img, dec, regs)
        invariant old(q) <= q && Extends(old(regs), regs) && given == old(given) && old(dec.Keys) <= dec.Keys
        decreases img.len - |regs|, |q| - head
      {
        var s := q[head];
        RegsBounded(img, funcs, regs);
        ghost var q0, r0, regs0, dec0 := q, regs.Keys, regs, dec;
        var added := Register(s);
        RegsBounded(img, funcs, regs);
        if added {
          AnyMode(img, dec, T32, s.mode);
          WalkFrom(s.addr, s.mode);
          AnyMode(img, dec, s.mode, T32);
        }
        BegunNext(img, dec0, dec, regs0, regs, s);
        ServedNext(img, q0, q, head, r0, regs.Keys);
        head := head + 1;
      }
    }

    /** `shape_scan` over the words of every region: a seed for every stored pointer
        whose target is not decoded, and no other. */
    method ShapeScan(regions: seq<seq<nat>>, prologue: nat -> bool)
      requires Valid()
      modifies `q, `given
      ensures Valid() && old(q) <= q
      ensures forall s :: s in given ==> s in old(given) || Stored(img, regions, prologue, s)
      ensures forall r :: 0 <= r < |regions| ==> Scanned(img, dec, q, prologue, regions[r])
    {
      hide Image.Decodes, Aligned, Marks.Valid, MarksAre, Registry, SumInsns, CallsAsked, Grounded, Tallied, Sorted;
      hide Scanned, Stored;
      for r := 0 to |regions|
        invariant Valid() && old(q) <= q
        invariant forall s :: s in given ==> s in old(given) || Stored(img, regions, prologue, s)
        invariant forall j :: 0 <= j < r ==> Scanned(img, dec, q, prologue, regions[j])
      {
        ghost var before := q;
        ScanOne(regions, r, prologue);
        forall j | 0 <= j < r ensures Scanned(img, dec, q, prologue, regions[j]) {
          ScannedStays(img, dec, before, q, prologue, regions[j]);
        }
      }
    }

    /** One region of the scan. */
    method ScanOne(regions: seq<seq<nat>>, r: nat, prologue: nat -> bool)
      requires Valid() && r < |regions|
      modifies `q, `given
      ensures Valid() && old(q) <= q && Scanned(img, dec, q, prologue, regions[r])
      ensures forall s :: s in given ==> s in old(given) || Stored(img, regions, prologue, s)
    {
      hide Image.Decodes, Aligned, Marks.Valid, MarksAre, Registry, SumInsns, CallsAsked, Grounded, Tallied, Sorted;
      hide Scanned, Stored, Asked;
      var found, _ := ScanRegion(img, seen, prologue, regions[r]);
      SeedsEven(img, found);
      for k := 0 to |found|
        invariant Valid() && old(q) <= q
        invariant forall j :: 0 <= j < k ==> Asked(q, found[j])
        invariant forall s :: s in given ==> s in old(given) || Stored(img, regions, prologue, s)
      {
        assert found[k] in found;
        FoundIsStored(img, seen.marked, regions, r, prologue, found[k]);
        ghost var before := q;
        AddStored(found[k]);
        AskedStays(before, q, found[..k]);
      }
      RegionScanned(img, seen.marked, dec, q, prologue, regions[r], found);
    }

    method AddStored(t: nat)
      requires Valid() && t % 2 == 0
      modifies `q, `given
      ensures Valid() && old(q) <= q && given == old(given) + {Seed(t, T32, true)} && Asked(q, t)
    {
      hide Image.Decodes, Aligned, Registry, Marks.Valid, SumInsns, MarksAre, CallsAsked, Grounded, Tallied, Sorted;
      var s := Seed(t, T32, true);
      AskedGrows(stubs, dec, q, s);
      GroundedGiven(img, stubs, given, q, dec, regs, owner, s);
      q := q + [s];
      given := given + {s};
    }
  }

  /** The promises of a drained queue. */
  lemma Promises(f: Finder, seeds: seq<Seed>)
    requires f.Valid() && Quiet(f.img, f.dec) && Served(f.img, f.q, |f.q|, f.regs.Keys) && seeds <= f.q
    requires Begun(f.img, f.dec, f.regs)
    ensures Complete(f.img, f.stubs, f.dec, f.funcs)
    ensures forall s :: s in seeds && f.img.InSegment(s.addr) ==> IsFunction(f.funcs, s.addr)
    ensures forall g :: g in f.funcs ==> SeedOf(g) in f.given || Called(f.stubs, f.dec, SeedOf(g))
    ensures forall a :: a in f.dec ==> Owned(f.img, f.dec, f.funcs, a)
    ensures Credits(f.img, f.dec, f.owner, f.funcs)
    ensures f.insnsTotal == |f.dec| == SumInsns(f.funcs)
    ensures forall i, j :: 0 <= i < j < |f.funcs| ==> f.funcs[i].addr != f.funcs[j].addr
    ensures Held(f.img, f.dec)
  {
    hide Image.Decodes, Aligned, Marks.Valid, SumInsns, MarksAre, Served, Complete, Settled, Successor;
    hide CallsAsked, Grounded, Tallied, Called, Owned, IsFunction, Sorted, Begun, Credits;
    CompleteAtEnd(f.img, f.stubs, f.dec, f.q, f.funcs, f.regs);
    EntriesServed(f.img, seeds, f.q, f.funcs, f.regs);
    GroundedAtEnd(f.img, f.stubs, f.given, f.q, f.dec, f.regs, f.owner, f.funcs);
    CreditsAtEnd(f.img, f.stubs, f.given, f.q, f.dec, f.regs, f.owner, f.funcs);
  }

  lemma PlainSoFar(f: Finder)
    requires f.Valid() && forall s :: s in f.given ==> !s.heur
    ensures forall a :: a in f.dec ==> PlainFlow(f.img, f.regs, a)
  {
    hide Grounded, PlainFlow, Image.Decodes, Aligned, Marks.Valid, MarksAre;
    hide Registry, Tallied, SumInsns, CallsAsked, Sorted;
    DecodedPlainly(f.img, f.stubs, f.given, f.q, f.dec, f.regs, f.owner);
  }

  lemma PointerPromise(f: Finder, before: Decoded, regs: Registered, q: seq<Seed>, regions: seq<seq<nat>>,
                       prologue: nat -> bool)
    requires f.Valid() && q <= f.q && Extends(regs, f.regs) && Served(f.img, f.q, |f.q|, f.regs.Keys)
    requires forall r :: 0 <= r < |regions| ==> Scanned(f.img, before, q, prologue, regions[r])
    requires forall a :: a in before ==> PlainFlow(f.img, regs, a)
    ensures PointersServed(f.img, regions, prologue, f.funcs)
  {
    hide Grounded, PlainFlow, Image.Decodes, Aligned, Marks.Valid, MarksAre;
    hide Registry, Tallied, SumInsns, CallsAsked, Sorted;
    hide Scanned, PointersServed, Extends, Served;
    ScannedIsServed(f.img, before, regs, q, regions, prologue, f.q, f.regs, f.funcs);
  }

  /** A word of some region stores a Thumb pointer to `s`, and a prologue there or the
      table around the word vouches for it. */
  ghost predicate Stored(img: Image, regions: seq<seq<nat>>, prologue: nat -> bool, s: Seed) {
    && s.mode == T32 && s.heur && img.decode(s.addr, T32).Some?
    && exists r, k :: 0 <= r < |regions| && 0 <= k < |regions[r]| && regions[r][k] == s.addr + 1
                      && (prologue(s.addr) || InTable(img, regions[r], k))
  }

  /** Every stored pointer of the region leads to decoded code or was made a seed. */
  ghost predicate Scanned(img: Image, dec: Decoded, q: seq<Seed>, prologue: nat -> bool, words: seq<nat>) {
    forall k :: 0 <= k < |words| && Vouched(img, prologue, words, k) ==>
                  Target(words[k]) in dec || Asked(q, Target(words[k]))
  }

  lemma ScannedStays(img: Image, dec: Decoded, q: seq<Seed>, q': seq<Seed>, prologue: nat -> bool, words: seq<nat>)
    requires q <= q' && Scanned(img, dec, q, prologue, words)
    ensures Scanned(img, dec, q', prologue, words)
  {
    hide Vouched, Asked;
    forall k | 0 <= k < |words| && Vouched(img, prologue, words, k)
      ensures Target(words[k]) in dec || Asked(q', Target(words[k]))
    {
      VouchedPositive(img, prologue, words, k);
      if Asked(q, Target(words[k])) {
        AskedStays(q, q', [Target(words[k])]);
        assert [Target(words[k])][0] == Target(words[k]);
      }
    }
  }

  lemma VouchedPositive(img: Image, prologue: nat -> bool, words: seq<nat>, k: nat)
    requires k < |words| && Vouched(img, prologue, words, k)
    ensures words[k] > 0 && img.InSegment(Target(words[k])) && (Target(words[k]) - img.base) % 2 == 0
  {
  }

  lemma AskedStays(q: seq<Seed>, q': seq<Seed>, ts: seq<nat>)
    requires q <= q' && forall j :: 0 <= j < |ts| ==> Asked(q, ts[j])
    ensures forall j :: 0 <= j < |ts| ==> Asked(q', ts[j])
  {
    forall j | 0 <= j < |ts| ensures Asked(q', ts[j]) {
      var k :| 0 <= k < |q| && q[k].addr == ts[j];
      assert q'[k].addr == ts[j];
    }
  }

  lemma RegionScanned(img: Image, marked: set<nat>, dec: Decoded, q: seq<Seed>, prologue: nat -> bool, words: seq<nat>,
                      found: seq<nat>)
    requires Aligned(img) && MarksAre(img, marked, dec.Keys)
    requires found == Seeds(img, marked, prologue, words, |words|)
    requires forall j :: 0 <= j < |found| ==> Asked(q, found[j])
    ensures Scanned(img, dec, q, prologue, words)
  {
    hide Vouched, Asked, Aligned, MarksAre, Seeds;
    forall k | 0 <= k < |words| && Vouched(img, prologue, words, k) && Target(words[k]) !in dec
      ensures Asked(q, Target(words[k]))
    {
      WordSeeded(img, marked, dec, prologue, words, k);
      var j :| 0 <= j < |found| && found[j] == Target(words[k]);
    }
  }

  lemma WordSeeded(img: Image, marked: set<nat>, dec: Decoded, prologue: nat -> bool, words: seq<nat>, k: nat)
    requires Aligned(img) && MarksAre(img, marked, dec.Keys)
    requires k < |words| && Vouched(img, prologue, words, k) && Target(words[k]) !in dec
    ensures Target(words[k]) in Seeds(img, marked, prologue, words, |words|)
  {
    BaseEven(img);
    hide Aligned, MarksAre, Seeds, Image.InSegment;
    VouchedPositive(img, prologue, words, k);
    EvenPast(img.base, Target(words[k]));
    MarkAt(img, marked, dec.Keys, Target(words[k]));
    AcceptedIsSeed(img, marked, prologue, words, |words|, k);
  }

  lemma SeedsEven(img: Image, found: seq<nat>)
    requires Aligned(img) && forall t :: t in found ==> img.InSegment(t) && (t - img.base) % 2 == 0
    ensures forall t :: t in found ==> t % 2 == 0
  {
    BaseEven(img);
    hide Aligned;
    forall t | t in found ensures t % 2 == 0 {
      EvenPast(img.base, t);
    }
  }

  lemma BaseEven(img: Image)
    requires Aligned(img)
    ensures img.base % 2 == 0
  {
  }

  lemma EvenPast(b: nat, t: nat)
    requires b % 2 == 0 && t >= b && (t - b) % 2 == 0
    ensures t % 2 == 0
  {
  }

  lemma FoundIsStored(img: Image, marked: set<nat>, regions: seq<seq<nat>>, r: nat, prologue: nat -> bool, t: nat)
    requires r < |regions| && t in Seeds(img, marked, prologue, regions[r], |regions[r]|)
    ensures Stored(img, regions, prologue, Seed(t, T32, true))
  {
    var k := SeedIsAccepted(img, marked, prologue, regions[r], |regions[r]|, t);
    assert regions[r][k] == t + 1;
  }

  lemma NothingFound(img: Image, stubs: seq<nat>, given: set<Seed>, q: seq<Seed>)
    requires given == set s | s in q
    ensures MarksAre(img, {}, {})
    ensures Registry(img, [], map[]) && SumInsns([]) == 0
    ensures CallsAsked(stubs, map[], q) && Grounded(img, stubs, given, q, map[], map[], map[])
    ensures Tallied([], map[], map[])
  {
  }

  /** Between walks nothing is pending, in any mode. */
  ghost predicate Quiet(img: Image, dec: Decoded) {
    Descent(img, dec, T32, [])
  }

  lemma AnyMode(img: Image, dec: Decoded, m: Mode, m': Mode)
    requires Descent(img, dec, m, [])
    ensures Descent(img, dec, m', [])
  {
    hide Settled, Successor;
    forall a, b | a in dec && Successor(dec[a].i, b) ensures Settled(img, dec, dec[a].mode, b) {
      assert b !in [];
    }
  }

  lemma StartDescent(img: Image, dec: Decoded, m: Mode, start: nat)
    requires Descent(img, dec, m, []) && start % 2 == 0
    ensures Descent(img, dec, m, [start])
  {
    hide Settled, Successor;
  }

  lemma StartOnFlow(img: Image, dec: Decoded, owner: Owners, m: Mode, start: nat)
    ensures OnFlow(img, dec, owner, m, start, [start])
  {
    WalkedStart(img, dec, owner, m, start);
  }

  lemma PendingAligned(img: Image, dec: Decoded, m: Mode, local: seq<nat>, a: nat)
    requires Descent(img, dec, m, local) && a in local
    ensures a % 2 == 0
  {
  }

  lemma DecodedBounded(img: Image, dec: Decoded, m: Mode, local: seq<nat>)
    requires Descent(img, dec, m, local)
    ensures |dec| <= img.len
  {
    hide Settled, Successor;
    InSegmentBounded(img, dec.Keys, img.len);
  }

  lemma RegsBounded(img: Image, funcs: seq<Found>, regs: Registered)
    requires Registry(img, funcs, regs)
    ensures |regs| <= img.len
  {
    InSegmentBounded(img, regs.Keys, img.len);
  }

  lemma MarkAt(img: Image, marked: set<nat>, addrs: set<nat>, a: nat)
    requires MarksAre(img, marked, addrs) && a % 2 == 0 && img.InSegment(a)
    ensures (a - img.base) / 2 in marked <==> a in addrs
  {
  }

  lemma ServedNext(img: Image, q: seq<Seed>, q': seq<Seed>, head: nat, regs: set<nat>, regs': set<nat>)
    requires head < |q| && q <= q' && regs <= regs' && Served(img, q, head, regs)
    requires img.InSegment(q[head].addr) ==> q[head].addr in regs'
    ensures Served(img, q', head + 1, regs')
  {
  }

  lemma DecodedInsn(img: Image, a: nat, m: Mode)
    requires img.Decodes() && img.decode(a, m).Some?
    ensures img.decode(a, m).value.addr == a && img.decode(a, m).value.width in {2, 4}
  {
  }

  lemma NextAligned(a: nat, i: Insn)
    requires a % 2 == 0 && i.width in {2, 4}
    ensures (a + i.width) % 2 == 0
  {
  }

  lemma SuccessorsWait(i: Insn, local: seq<nat>, local': seq<nat>, next: Option<nat>)
    requires local' == if i.cls == Branch && i.target.Some? then local + [i.target.value] else local
    requires next == if Continues(i) then Some(i.addr + i.width) else None
    ensures forall p :: p in local' + (if next.Some? then [next.value] else []) <==> p in local || Successor(i, p)
  {
  }

  /** The halfword at offset `off`, read as Thumb code, is a call the harvest takes. */
  predicate HarvestedAt(img: Image, stubs: seq<nat>, off: nat, s: Seed) {
    && off % 2 == 0 && off + 4 <= img.len && img.decode(img.base + off, T32).Some?
    && Asks(stubs, At(T32, img.decode(img.base + off, T32).value), s) && img.InSegment(s.addr)
  }

  ghost predicate Harvested(img: Image, stubs: seq<nat>, s: Seed) {
    exists off: nat :: HarvestedAt(img, stubs, off, s)
  }

  /** One step of the harvest. */
  method HarvestOne(img: Image, stubs: seq<nat>, off: nat) returns (r: Option<Seed>)
    requires Sorted(stubs) && off % 2 == 0 && off + 4 <= img.len
    ensures forall s :: HarvestedAt(img, stubs, off, s) <==> r == Some(s)
    ensures r.Some? ==> !r.value.heur && img.decode(img.base + off, T32).Some?
                        && img.decode(img.base + off, T32).value.target == Some(r.value.addr)
  {
    var d := img.decode(img.base + off, T32);
    if d.Some? && d.value.cls == Call && d.value.target.Some? && img.InSegment(d.value.target.value) {
      var t := d.value.target.value;
      var at := Find(stubs, ClearThumb(t));
      if !(d.value.switches && at == |stubs|) {
        return Some(Seed(t, if d.value.switches then A32 else T32, false));
      }
    }
    r := None;
  }

  /** The harvest of vf_discover: exactly the in-range targets of everything in the
      segment that decodes as a Thumb call, except mode switches that miss the stubs. */
  method Harvest(img: Image, stubs: seq<nat>) returns (seeds: seq<Seed>)
    requires img.Decodes() && Aligned(img) && Sorted(stubs)
    ensures forall s :: s in seeds <==> Harvested(img, stubs, s)
    ensures forall s :: s in seeds ==> s.addr % 2 == 0 && !s.heur
  {
    hide Image.Decodes, Sorted, HarvestedAt;
    seeds := [];
    var off: nat := 0;
    while off + 4 <= img.len
      invariant off % 2 == 0
      invariant forall s :: s in seeds <==> exists o: nat :: o < off && HarvestedAt(img, stubs, o, s)
      invariant forall s :: s in seeds ==> s.addr % 2 == 0 && !s.heur
    {
      ghost var was := seeds;
      var one := HarvestOne(img, stubs, off);
      if one.Some? {
        seeds := seeds + [one.value];
      }
      HarvestStep(img, stubs, off, was, seeds);
      off := off + 2;
    }
    HarvestDone(img, stubs, off, seeds);
  }

  lemma HarvestDone(img: Image, stubs: seq<nat>, off: nat, seeds: seq<Seed>)
    requires off + 4 > img.len && forall s :: s in seeds <==> exists o: nat :: o < off && HarvestedAt(img, stubs, o, s)
    ensures forall s :: s in seeds <==> Harvested(img, stubs, s)
  {
    hide Asks;
    forall s, o: nat | HarvestedAt(img, stubs, o, s) ensures s in seeds {
      assert o < off;
    }
  }

  lemma HarvestStep(img: Image, stubs: seq<nat>, off: nat, was: seq<Seed>, seeds: seq<Seed>)
    requires off % 2 == 0
    requires forall s :: s in was <==> exists o: nat :: o < off && HarvestedAt(img, stubs, o, s)
    requires forall s :: s in seeds <==> s in was || HarvestedAt(img, stubs, off, s)
    ensures forall s :: s in seeds <==> exists o: nat :: o < off + 2 && HarvestedAt(img, stubs, o, s)
  {
    hide Asks;
    forall s, o: nat | o < off + 2 && HarvestedAt(img, stubs, o, s) ensures s in seeds {
      assert o < off || o == off;
    }
  }

  // ----- the whole of discovery

  /** What discovery promises. The entry of every function, and every successor of a
      decoded instruction, is out of the segment, undecodable in its mode, or decoded;
      every in-range target of a direct call that was not refused is a registered
      function. */
  ghost predicate Complete(img: Image, stubs: seq<nat>, dec: Decoded, funcs: seq<Found>) {
    && (forall f :: f in funcs ==> Settled(img, dec, f.mode, f.addr))
    && (forall a, b :: a in dec && Successor(dec[a].i, b) ==> Settled(img, dec, dec[a].mode, b))
    && (forall a :: a in dec && Followed(stubs, dec[a]) && img.InSegment(dec[a].i.target.value) ==>
          IsFunction(funcs, dec[a].i.target.value))
  }

  lemma CompleteAtEnd(img: Image, stubs: seq<nat>, dec: Decoded, q: seq<Seed>, funcs: seq<Found>, regs: Registered)
    requires Quiet(img, dec) && CallsAsked(stubs, dec, q) && Served(img, q, |q|, regs.Keys)
    requires Registry(img, funcs, regs) && Begun(img, dec, regs)
    ensures Complete(img, stubs, dec, funcs)
  {
    hide Settled, Successor, Refused;
    forall f | f in funcs ensures Settled(img, dec, f.mode, f.addr) {
      assert f.addr in regs && regs[f.addr] == SeedOf(f);
    }
    forall a, b | a in dec && Successor(dec[a].i, b) ensures Settled(img, dec, dec[a].mode, b) {
      assert b !in [];
    }
    forall t | img.InSegment(t) && Asked(q, t) ensures IsFunction(funcs, t) {
      var k :| 0 <= k < |q| && q[k].addr == t;
      assert t in regs;
    }
  }

  /** Whatever decodes on the flow of a function is decoded, unless the flow runs into
      what was decoded in the other mode. */
  lemma {:induction false} FlowIsDecoded(img: Image, stubs: seq<nat>, dec: Decoded, funcs: seq<Found>, f: Found,
                                         p: seq<nat>, a: nat)
    requires img.Decodes() && Complete(img, stubs, dec, funcs) && Held(img, dec) && f in funcs
    requires Trail(img, f.mode, f.addr, p, a) && Clean(dec, f.mode, p) && img.decode(a, f.mode).Some?
    ensures a in dec && dec[a].mode == f.mode
    decreases |p|
  {
    hide Successor, IsFunction;
    DecodedInSegment(img, a, f.mode);
    if |p| == 1 {
      assert Settled(img, dec, f.mode, f.addr);
    } else {
      var q, b := p[..|p| - 1], p[|p| - 2];
      assert Steps(img, f.mode, b, a) by { assert p[|p| - 1] == a; }
      forall k | 0 <= k < |q| - 1 ensures Steps(img, f.mode, q[k], q[k + 1]) {
        assert Steps(img, f.mode, p[k], p[k + 1]);
      }
      assert Clean(dec, f.mode, q) by {
        assert forall k :: 0 <= k < |q| ==> q[k] == p[k];
      }
      FlowIsDecoded(img, stubs, dec, funcs, f, q, b);
      assert Settled(img, dec, f.mode, a);
    }
    assert p[|p| - 1] in dec;
  }

  /** What is decoded is what the segment holds. */
  ghost predicate Held(img: Image, dec: Decoded) {
    forall a :: a in dec ==> img.InSegment(a) && img.decode(a, dec[a].mode) == Some(dec[a].i)
  }

  lemma DecodedInSegment(img: Image, a: nat, m: Mode)
    requires img.Decodes() && img.decode(a, m).Some?
    ensures img.InSegment(a)
  {
  }

  /** The decoded set is exactly the flow of the functions. */
  lemma DecodedIffFlow(img: Image, stubs: seq<nat>, dec: Decoded, funcs: seq<Found>, a: nat, m: Mode)
    requires img.Decodes() && Complete(img, stubs, dec, funcs) && Held(img, dec)
    requires forall b :: b in dec ==> Owned(img, dec, funcs, b)
    ensures a in dec && dec[a].mode == m <==>
            img.decode(a, m).Some? && exists f :: f in funcs && f.mode == m && CleanFlow(img, dec, m, f.addr, a)
    ensures (forall f :: f in funcs ==> f.mode == m) ==>
              (a in dec <==> img.decode(a, m).Some? && exists f :: f in funcs && FlowsTo(img, m, f.addr, a))
  {
    hide Image.Decodes, Complete, Trail, Clean;
    if a in dec {
      var k :| 0 <= k < |funcs| && funcs[k].mode == dec[a].mode && CleanFlow(img, dec, dec[a].mode, funcs[k].addr, a);
      assert funcs[k] in funcs;
    }
    forall f, p | f in funcs && Trail(img, f.mode, f.addr, p, a) && Clean(dec, f.mode, p) && img.decode(a, f.mode).Some?
      ensures a in dec && dec[a].mode == f.mode
    {
      FlowIsDecoded(img, stubs, dec, funcs, f, p, a);
    }
    if forall f :: f in funcs ==> f.mode == m {
      forall p ensures Clean(dec, m, p) {
        OneModeIsClean(img, dec, funcs, m, p);
      }
    }
  }

  lemma OneModeIsClean(img: Image, dec: Decoded, funcs: seq<Found>, m: Mode, p: seq<nat>)
    requires forall b :: b in dec ==> Owned(img, dec, funcs, b)
    requires forall f :: f in funcs ==> f.mode == m
    ensures Clean(dec, m, p)
  {
    hide CleanFlow;
    forall b | b in dec ensures dec[b].mode == m {
      var k :| 0 <= k < |funcs| && funcs[k].mode == dec[b].mode && CleanFlow(img, dec, dec[b].mode, funcs[k].addr, b);
      assert funcs[k] in funcs;
    }
  }

  /** Why a function exists: it was given, the harvest or a followed call names it, or a
      stored pointer does. */
  ghost predicate Justified(img: Image, stubs: seq<nat>, entries: seq<Seed>, regions: seq<seq<nat>>,
                            prologue: nat -> bool, dec: Decoded, s: Seed) {
    s in entries || Harvested(img, stubs, s) || Called(stubs, dec, s) || Stored(img, regions, prologue, s)
  }

  /** A function found without the help of stored pointers has `a` on its flow. */
  ghost predicate PlainFlow(img: Image, regs: Registered, a: nat) {
    exists r :: r in regs && !regs[r].heur && FlowsTo(img, regs[r].mode, r, a)
  }

  /** Before the scan nothing rests on stored pointers. */
  lemma DecodedPlainly(img: Image, stubs: seq<nat>, given: set<Seed>, q: seq<Seed>, dec: Decoded, regs: Registered,
                       owner: Owners)
    requires Grounded(img, stubs, given, q, dec, regs, owner) && forall s :: s in given ==> !s.heur
    ensures forall a :: a in dec ==> PlainFlow(img, regs, a)
  {
    hide FlowsTo, WalkedTo;
    forall a | a in dec ensures PlainFlow(img, regs, a) {
      assert a in owner && OnFlowOf(img, dec, owner, dec[a].mode, regs, owner[a], a);
      WalkedFlows(img, dec, owner, dec[a].mode, owner[a], a);
      assert regs[owner[a]] in q;
    }
  }

  /** The target of a stored pointer is a function, or was found on the flow of a function
      that is none of the scan's. */
  ghost predicate PointerServed(img: Image, funcs: seq<Found>, t: nat) {
    IsFunction(funcs, t) ||
    exists k :: 0 <= k < |funcs| && !funcs[k].heur && FlowsTo(img, funcs[k].mode, funcs[k].addr, t)
  }

  /** What the scan promises: every stored pointer of every region is served. */
  ghost predicate PointersServed(img: Image, regions: seq<seq<nat>>, prologue: nat -> bool, funcs: seq<Found>) {
    forall r, k :: 0 <= r < |regions| && 0 <= k < |regions[r]| && Vouched(img, prologue, regions[r], k) ==>
      PointerServed(img, funcs, Target(regions[r][k]))
  }

  /** In the words: of four neighbouring ones that are even addresses of the segment plus
      one, each whose address holds an instruction has it served, whatever stands there. */
  lemma TableServed(img: Image, regions: seq<seq<nat>>, prologue: nat -> bool, funcs: seq<Found>, r: nat, lo: nat,
                    k: nat, t: nat)
    requires img.base % 2 == 0 && PointersServed(img, regions, prologue, funcs)
    requires r < |regions| && lo + 4 <= |regions[r]| && lo <= k < lo + 4
    requires forall j :: lo <= j < lo + 4 ==> PointsTo(img, regions[r][j])
    requires regions[r][k] == t + 1 && img.decode(t, T32).Some? && img.decode(t, T32).value.cls !in {Unknown, Undef}
    ensures PointerServed(img, funcs, t)
  {
    hide PointerServed, PointsTo, InTable;
    assert FourPointers(img, regions[r], lo);
    FourAreATable(img, regions[r], k);
    ShapedIff(img, regions[r][k]);
    assert PointsTo(img, regions[r][k]) by { assert lo <= k < lo + 4; }
    PointIsShaped(img, regions[r][k]);
    assert Vouched(img, prologue, regions[r], k);
    assert Target(regions[r][k]) == t;
  }

  /** A lone word of that form is served when its address looks like a prologue. */
  lemma PrologueServed(img: Image, regions: seq<seq<nat>>, prologue: nat -> bool, funcs: seq<Found>, r: nat, k: nat,
                       t: nat)
    requires img.base % 2 == 0 && PointersServed(img, regions, prologue, funcs)
    requires r < |regions| && k < |regions[r]| && regions[r][k] == t + 1
    requires t % 2 == 0 && img.InSegment(t) && prologue(t)
    requires img.decode(t, T32).Some? && img.decode(t, T32).value.cls !in {Unknown, Undef}
    ensures PointerServed(img, funcs, t)
  {
    hide PointerServed, InTable;
    PointsEvenly(img, t);
    assert Vouched(img, prologue, regions[r], k);
    assert Target(regions[r][k]) == t;
  }

  lemma ScannedIsServed(img: Image, before: Decoded, regs: Registered, q: seq<Seed>, regions: seq<seq<nat>>,
                        prologue: nat -> bool, q': seq<Seed>, regs': Registered, funcs: seq<Found>)
    requires forall r :: 0 <= r < |regions| ==> Scanned(img, before, q, prologue, regions[r])
    requires forall a :: a in before ==> PlainFlow(img, regs, a)
    requires q <= q' && Extends(regs, regs') && Served(img, q', |q'|, regs'.Keys) && Registry(img, funcs, regs')
    ensures PointersServed(img, regions, prologue, funcs)
  {
    hide Vouched, FlowsTo, Served, Registry, Asked, PointerServed, PlainFlow;
    forall r, k | 0 <= r < |regions| && 0 <= k < |regions[r]| && Vouched(img, prologue, regions[r], k)
      ensures PointerServed(img, funcs, Target(regions[r][k]))
    {
      VouchedPositive(img, prologue, regions[r], k);
      assert Scanned(img, before, q, prologue, regions[r]);
      WordServed(img, before, regs, q, q', regs', funcs, Target(regions[r][k]));
    }
  }

  lemma WordServed(img: Image, before: Decoded, regs: Registered, q: seq<Seed>, q': seq<Seed>, regs': Registered,
                   funcs: seq<Found>, t: nat)
    requires (t in before && PlainFlow(img, regs, t)) || Asked(q, t)
    requires img.InSegment(t) && q <= q' && Extends(regs, regs')
    requires Served(img, q', |q'|, regs'.Keys) && Registry(img, funcs, regs')
    ensures PointerServed(img, funcs, t)
  {
    hide FlowsTo, Image.InSegment;
    if Asked(q, t) {
      var k :| 0 <= k < |q| && q[k].addr == t;
      assert q'[k].addr == t && t in regs';
    } else {
      var r :| r in regs && !regs[r].heur && FlowsTo(img, regs[r].mode, r, t);
      assert r in regs' && regs'[r] == regs[r];
      var k :| 0 <= k < |funcs| && funcs[k].addr == r;
      assert funcs[k] in funcs && regs'[r] == SeedOf(funcs[k]);
    }
  }

  /** The trail meets no address that is decoded in another mode than `m`. */
  ghost predicate Clean(dec: Decoded, m: Mode, p: seq<nat>) {
    forall k :: 0 <= k < |p| && p[k] in dec ==> dec[p[k]].mode == m
  }

  ghost predicate CleanFlow(img: Image, dec: Decoded, m: Mode, start: nat, a: nat) {
    exists p :: Trail(img, m, start, p, a) && Clean(dec, m, p)
  }

  lemma WalkedIsClean(img: Image, dec: Decoded, owner: Owners, m: Mode, r: nat, a: nat)
    requires WalkedTo(img, dec, owner, m, r, a) && a in dec && dec[a].mode == m
    ensures CleanFlow(img, dec, m, r, a)
  {
    hide Steps;
    var p :| Trail(img, m, r, p, a) && Walked(dec, owner, m, r, p);
    assert Clean(dec, m, p) by {
      assert forall k :: 0 <= k < |p| - 1 ==> DecodedBy(dec, owner, m, r, p[k]);
    }
  }

  /** The instruction at `a` is on the flow of a registered function, in its mode, and
      inside its extent. */
  ghost predicate Owned(img: Image, dec: Decoded, funcs: seq<Found>, a: nat)
    requires a in dec
  {
    exists k :: 0 <= k < |funcs| && funcs[k].mode == dec[a].mode && CleanFlow(img, dec, dec[a].mode, funcs[k].addr, a)
                && a + dec[a].i.width <= funcs[k].end
  }

  lemma GroundedAtEnd(img: Image, stubs: seq<nat>, given: set<Seed>, q: seq<Seed>, dec: Decoded, regs: Registered,
                      owner: Owners, funcs: seq<Found>)
    requires Grounded(img, stubs, given, q, dec, regs, owner)
    requires Registry(img, funcs, regs) && Tallied(funcs, dec, owner)
    ensures forall f :: f in funcs ==> SeedOf(f) in given || Called(stubs, dec, SeedOf(f))
    ensures forall a :: a in dec ==> Owned(img, dec, funcs, a)
  {
    hide Called, OnFlowOf, TallyOf, Owned;
    forall a | a in dec ensures Owned(img, dec, funcs, a) {
      OwnerOwns(img, funcs, dec, regs, owner, a);
    }
  }

  lemma OwnerOwns(img: Image, funcs: seq<Found>, dec: Decoded, regs: Registered, owner: Owners, a: nat)
    requires Registry(img, funcs, regs) && Tallied(funcs, dec, owner)
    requires a in dec && OnFlowOf(img, dec, owner, dec[a].mode, regs, owner[a], a)
    ensures Owned(img, dec, funcs, a)
  {
    hide WalkedTo, CleanFlow, Image.InSegment, TallyOf;
    assert a in owner;
    WalkedIsClean(img, dec, owner, dec[a].mode, owner[a], a);
    var k :| 0 <= k < |funcs| && funcs[k].addr == owner[a];
    assert funcs[k] in funcs;
    InExtent(dec, owner, funcs[k], a);
  }

  /** Every instruction credited to a function was reached over instructions credited to it,
      in its mode. */
  ghost predicate Credits(img: Image, dec: Decoded, owner: Owners, funcs: seq<Found>) {
    && Tallied(funcs, dec, owner)
    && forall f, a :: f in funcs && a in OwnedBy(owner, f.addr) ==>
                        DecodedBy(dec, owner, f.mode, f.addr, a) && WalkedTo(img, dec, owner, f.mode, f.addr, a)
  }

  lemma CreditsAtEnd(img: Image, stubs: seq<nat>, given: set<Seed>, q: seq<Seed>, dec: Decoded, regs: Registered,
                     owner: Owners, funcs: seq<Found>)
    requires Grounded(img, stubs, given, q, dec, regs, owner)
    requires Registry(img, funcs, regs) && Tallied(funcs, dec, owner)
    ensures Credits(img, dec, owner, funcs)
  {
    hide WalkedTo, Tallied, Image.InSegment, Called, OwnedBy, DecodedBy;
    forall f, a | f in funcs && a in OwnedBy(owner, f.addr)
      ensures DecodedBy(dec, owner, f.mode, f.addr, a) && WalkedTo(img, dec, owner, f.mode, f.addr, a)
    {
      CreditOf(img, dec, regs, owner, f, a);
    }
  }

  lemma CreditOf(img: Image, dec: Decoded, regs: Registered, owner: Owners, f: Found, a: nat)
    requires owner.Keys == dec.Keys && f.addr in regs && regs[f.addr] == SeedOf(f) && a in OwnedBy(owner, f.addr)
    requires forall b :: b in owner ==> OnFlowOf(img, dec, owner, dec[b].mode, regs, owner[b], b)
    ensures DecodedBy(dec, owner, f.mode, f.addr, a) && WalkedTo(img, dec, owner, f.mode, f.addr, a)
  {
    hide WalkedTo;
    assert OnFlowOf(img, dec, owner, dec[a].mode, regs, owner[a], a);
  }

  lemma InExtent(dec: Decoded, owner: Owners, f: Found, a: nat)
    requires owner.Keys == dec.Keys && TallyOf(dec, owner, f) && a in owner && owner[a] == f.addr
    ensures a + dec[a].i.width <= f.end
  {
    assert a in OwnedBy(owner, f.addr);
  }

  /** `vf_discover`: harvest, drain the queue, scan for stored pointers, drain again.
      It terminates, counts every decoded instruction once in the total and once in the
      one function credited with it, registers no address twice, leaves nothing behind,
      and finds no function without a reason; what is decoded is the flow of the
      functions, no more and no less; every stored pointer that passes the scan's tests is served. */
  method DiscoverAll(img: Image, stubs: seq<nat>, entries: seq<Seed>, regions: seq<seq<nat>>, prologue: nat -> bool)
    returns (funcs: seq<Found>, insnsTotal: nat, ghost dec: Decoded)
    requires img.Decodes() && Aligned(img) && Sorted(stubs)
    requires forall s :: s in entries ==> s.addr % 2 == 0 && !s.heur
    ensures Complete(img, stubs, dec, funcs)
    ensures Held(img, dec)
    ensures insnsTotal == |dec| == SumInsns(funcs)
    ensures forall i, j :: 0 <= i < j < |funcs| ==> funcs[i].addr != funcs[j].addr
    ensures forall s :: (s in entries || Harvested(img, stubs, s)) && img.InSegment(s.addr) ==>
                          IsFunction(funcs, s.addr)
    ensures forall f :: f in funcs ==> Justified(img, stubs, entries, regions, prologue, dec, SeedOf(f))
    ensures forall a :: a in dec ==> Owned(img, dec, funcs, a)
    ensures exists owner :: Credits(img, dec, owner, funcs)
    ensures PointersServed(img, regions, prologue, funcs)
  {
    hide Image.Decodes, Aligned, Sorted, Tallied, Finder.Valid, Served, Complete, IsFunction, SumInsns;
    hide Harvested, Called, Stored, Owned, Settled, Successor, PlainFlow, Extends, Scanned, PointersServed;
    hide Held, Begun, Credits;
    var harvested := Harvest(img, stubs);
    var f := new Finder(img, stubs, entries + harvested);
    NothingServed(img, f.q, f.regs);
    f.Drain(0);
    var before := |f.q|;
    ghost var q1, dec1, regs1 := f.q, f.dec, f.regs;
    PlainSoFar(f);
    f.ShapeScan(regions, prologue);
    ghost var q2 := f.q;
    ServedStays(img, q1, f.q, before, f.regs.Keys);
    f.Drain(before);
    Promises(f, entries + harvested);
    PointerPromise(f, dec1, regs1, q2, regions, prologue);
    funcs, insnsTotal, dec := f.funcs, f.insnsTotal, f.dec;
  }

  lemma NothingServed(img: Image, q: seq<Seed>, regs: Registered)
    requires regs == map[]
    ensures Served(img, q, 0, regs.Keys) && Begun(img, map[], regs)
  {
  }

  lemma ServedStays(img: Image, q: seq<Seed>, q': seq<Seed>, head: nat, regs: set<nat>)
    requires q <= q' && head <= |q| && Served(img, q, head, regs)
    ensures Served(img, q', head, regs)
  {
  }

  lemma EntriesServed(img: Image, entries: seq<Seed>, q: seq<Seed>, funcs: seq<Found>, regs: Registered)
    requires entries <= q && Served(img, q, |q|, regs.Keys) && Registry(img, funcs, regs)
    ensures forall s :: s in entries && img.InSegment(s.addr) ==> IsFunction(funcs, s.addr)
  {
    forall s | s in entries && img.InSegment(s.addr) ensures IsFunction(funcs, s.addr) {
      var k :| 0 <= k < |entries| && entries[k] == s;
      assert q[k] == s;
    }
  }
}
