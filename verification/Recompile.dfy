/** Discovery and emission put together: what the emitter relies on is what discovery
    establishes. */
module Recompile {
  import opened Bits
  import opened Cpu
  import opened Code
  import opened Search
  import opened Emit
  import opened Discover
  import opened Module
  import opened Decode
  import opened Stubs

  function ToFunc(f: Found): Func {
    Func(f.addr, f.mode, f.end)
  }

  function ToFuncs(funcs: seq<Found>): (r: seq<Func>)
    ensures |r| == |funcs| && forall k :: 0 <= k < |funcs| ==> r[k] == ToFunc(funcs[k])
  {
    seq(|funcs|, k requires 0 <= k < |funcs| => ToFunc(funcs[k]))
  }

  /** The context em_emit prints the discovered functions in. */
  function ContextOf(img: Image, stubs: seq<nat>, funcs: seq<Found>): Context {
    Context(img, stubs, SortAddrs(FuncAddrs(ToFuncs(funcs))))
  }

  /** A direct call that discovery decoded and followed, to an address of the segment,
      is printed as a call of a function or import of the module, never as a trap. */
  lemma FollowedCallsBind(img: Image, stubs: seq<nat>, dec: Decoded, funcs: seq<Found>, labels: seq<nat>, a: nat)
    requires Complete(img, stubs, dec, funcs) && a in dec && Followed(stubs, dec[a]) && OpFits(dec[a].i)
    requires img.InSegment(dec[a].i.target.value)
    ensures var i, ctx := dec[a].i, ContextOf(img, stubs, funcs);
            var t := i.target.value;
            Translate(i, ctx.Lookup(i, labels)) ==
            (Always, if ClearThumb(t) in stubs then CallImport(t) else CallFunc(t))
  {
    hide ClearThumb, Settled, Successor;
    var t := dec[a].i.target.value;
    var addrs := FuncAddrs(ToFuncs(funcs));
    assert IsFunction(funcs, t);
    var k :| 0 <= k < |funcs| && funcs[k].addr == t;
    assert addrs[k] == t;
    SortAddrsKeeps(addrs);
  }

  /** The emitter follows flow where discovery does, and also past an indirect jump. */
  lemma FallsIffContinues(i: Insn)
    requires OpFits(i)
    ensures Continues(i) <==> Falls(i) && i.cls != Indirect
    ensures Falls(i) <==> !(i.cls == Return || (i.cls == Branch && !i.conditional))
  {
  }

  /** The emitter gets to `a` without going on past an indirect jump, and without meeting
      what was decoded in the other mode. */
  ghost predicate ReachesPlainly(img: Image, dec: Decoded, fn: Func, a: nat) {
    exists p :: Path(img, fn, p) && p[|p| - 1] == a && PastNoJump(img, fn, p) && Clean(dec, fn.mode, p)
  }

  ghost predicate PastNoJump(img: Image, fn: Func, p: seq<nat>) {
    forall k :: 0 <= k < |p| - 1 && img.decode(p[k], fn.mode).Some? ==> img.decode(p[k], fn.mode).value.cls != Indirect
  }

  lemma EdgeSteps(img: Image, fn: Func, a: nat, b: nat)
    requires img.Decodes() && Edge(img, fn, a, b) && img.decode(a, fn.mode).value.cls != Indirect
    ensures Steps(img, fn.mode, a, b)
  {
    FallsIffContinues(img.decode(a, fn.mode).value);
  }

  /** What the emitter takes that way, discovery decoded. */
  lemma TakenIsDecoded(img: Image, stubs: seq<nat>, dec: Decoded, funcs: seq<Found>, f: Found, a: nat)
    requires img.Decodes() && Complete(img, stubs, dec, funcs) && Held(img, dec) && f in funcs
    requires ReachesPlainly(img, dec, ToFunc(f), a) && Takes(img, ToFunc(f), a)
    ensures a in dec && dec[a].mode == f.mode
  {
    hide Image.Decodes, Complete, Edge, Steps;
    var p :| Path(img, ToFunc(f), p) && p[|p| - 1] == a && PastNoJump(img, ToFunc(f), p) && Clean(dec, f.mode, p);
    forall k | 0 <= k < |p| - 1 ensures Steps(img, f.mode, p[k], p[k + 1]) {
      assert Edge(img, ToFunc(f), p[k], p[k + 1]);
      EdgeTaken(img, ToFunc(f), p[k], p[k + 1]);
      EdgeSteps(img, ToFunc(f), p[k], p[k + 1]);
    }
    assert Trail(img, f.mode, f.addr, p, a);
    FlowIsDecoded(img, stubs, dec, funcs, f, p, a);
  }

  lemma EdgeTaken(img: Image, fn: Func, a: nat, b: nat)
    requires Edge(img, fn, a, b)
    ensures img.decode(a, fn.mode).Some?
  {
  }

  /** What discovery credits to a function lies below the bound the emitter uses. */
  lemma CreditedIsBelow(img: Image, dec: Decoded, owner: Owners, funcs: seq<Found>, f: Found, a: nat)
    requires img.Decodes() && Held(img, dec) && Credits(img, dec, owner, funcs)
    requires f in funcs && a in OwnedBy(owner, f.addr)
    ensures a < f.end && (a != 0 ==> Takes(img, ToFunc(f), a))
  {
    CreditInExtent(img, dec, owner, funcs, f, a);
    hide Credits, Takes, OwnedBy;
    TakenBelowEnd(img, dec, ToFunc(f), a);
  }

  lemma TakenBelowEnd(img: Image, dec: Decoded, fn: Func, a: nat)
    requires img.Decodes() && Held(img, dec) && a in dec && dec[a].mode == fn.mode && a + dec[a].i.width <= fn.end
    ensures a < fn.end && (a != 0 ==> Takes(img, fn, a))
  {
    hide Takes;
    TakesWithin(img, fn, a);
    assert img.decode(a, fn.mode) == Some(dec[a].i);
  }

  lemma CreditInExtent(img: Image, dec: Decoded, owner: Owners, funcs: seq<Found>, f: Found, a: nat)
    requires Credits(img, dec, owner, funcs) && f in funcs && a in OwnedBy(owner, f.addr)
    ensures a in dec && dec[a].mode == f.mode && a + dec[a].i.width <= f.end
  {
    hide WalkedTo;
    assert TallyOf(dec, owner, f);
  }

  lemma WalkEdge(img: Image, fn: Func, a: nat, b: nat)
    requires img.Decodes() && Takes(img, fn, a) && Steps(img, fn.mode, a, b) && b >= fn.addr && Takes(img, fn, b)
    ensures Edge(img, fn, a, b)
  {
  }

  /** The emitter takes everything discovery credits to a function, exactly when none of it
      lies below the entry, where discovery follows branches and the emitter does not, or
      at address zero. */
  lemma CreditedIsTaken(img: Image, dec: Decoded, owner: Owners, funcs: seq<Found>, f: Found)
    requires img.Decodes() && Held(img, dec) && Credits(img, dec, owner, funcs) && f in funcs
    ensures (forall a :: a in OwnedBy(owner, f.addr) ==> Takes(img, ToFunc(f), a) && Reaches(img, ToFunc(f), a))
       <==> (forall a :: a in OwnedBy(owner, f.addr) ==> a >= f.addr && a != 0)
  {
    hide Image.Decodes, Held, Tallied, Takes, Reaches, WalkedTo;
    if forall a :: a in OwnedBy(owner, f.addr) ==> Takes(img, ToFunc(f), a) && Reaches(img, ToFunc(f), a) {
      forall a | a in OwnedBy(owner, f.addr) ensures a >= f.addr && a != 0 {
        ReachesUpwards(img, ToFunc(f), a);
        TakesWithin(img, ToFunc(f), a);
      }
    }
    if forall a :: a in OwnedBy(owner, f.addr) ==> a >= f.addr && a != 0 {
      forall a | a in OwnedBy(owner, f.addr) ensures Takes(img, ToFunc(f), a) && Reaches(img, ToFunc(f), a) {
        CreditedIsBelow(img, dec, owner, funcs, f, a);
        CreditedIsReached(img, dec, owner, funcs, f, a);
      }
    }
  }

  lemma CreditIsWalked(img: Image, dec: Decoded, owner: Owners, funcs: seq<Found>, f: Found, a: nat)
    requires Credits(img, dec, owner, funcs) && f in funcs && a in OwnedBy(owner, f.addr)
    ensures WalkedTo(img, dec, owner, f.mode, f.addr, a)
  {
  }

  lemma CreditedIsReached(img: Image, dec: Decoded, owner: Owners, funcs: seq<Found>, f: Found, a: nat)
    requires img.Decodes() && Held(img, dec) && Credits(img, dec, owner, funcs) && f in funcs
    requires a in OwnedBy(owner, f.addr)
    requires forall b :: b in OwnedBy(owner, f.addr) ==> b >= f.addr && b != 0
    ensures Reaches(img, ToFunc(f), a)
  {
    CreditIsWalked(img, dec, owner, funcs, f, a);
    hide Image.Decodes, Held, Credits, Takes, Steps, OwnedBy, DecodedBy;
    var p :| Trail(img, f.mode, f.addr, p, a) && Walked(dec, owner, f.mode, f.addr, p);
    forall k | 0 <= k < |p| ensures Takes(img, ToFunc(f), p[k]) && p[k] >= f.addr {
      WalkIsCredited(img, dec, owner, f, p, a, k);
      CreditedIsBelow(img, dec, owner, funcs, f, p[k]);
    }
    TrailIsPath(img, ToFunc(f), p, a);
  }

  lemma WalkIsCredited(img: Image, dec: Decoded, owner: Owners, f: Found, p: seq<nat>, a: nat, k: nat)
    requires Trail(img, f.mode, f.addr, p, a) && Walked(dec, owner, f.mode, f.addr, p) && k < |p|
    requires a in OwnedBy(owner, f.addr)
    ensures p[k] in OwnedBy(owner, f.addr)
  {
    hide Steps;
    if k < |p| - 1 {
      assert DecodedBy(dec, owner, f.mode, f.addr, p[k]);
    }
  }

  lemma TrailIsPath(img: Image, fn: Func, p: seq<nat>, a: nat)
    requires img.Decodes() && Trail(img, fn.mode, fn.addr, p, a)
    requires forall k :: 0 <= k < |p| ==> Takes(img, fn, p[k]) && p[k] >= fn.addr
    ensures Reaches(img, fn, a)
  {
    hide Image.Decodes, Takes, Edge, Steps;
    forall k | 0 <= k < |p| - 1 ensures Edge(img, fn, p[k], p[k + 1]) {
      assert Steps(img, fn.mode, p[k], p[k + 1]);
      WalkEdge(img, fn, p[k], p[k + 1]);
    }
    assert Path(img, fn, p);
  }

  /** So an in-segment call in a printed body, reached that way and not refused, is printed
      as a call of a function or import, never as a trap. */
  lemma PrintedCallsBind(img: Image, stubs: seq<nat>, dec: Decoded, funcs: seq<Found>, f: Found, labels: seq<nat>,
                         a: nat)
    requires img.Decodes() && Complete(img, stubs, dec, funcs) && Held(img, dec) && f in funcs
    requires ReachesPlainly(img, dec, ToFunc(f), a) && Takes(img, ToFunc(f), a)
    requires var i := img.decode(a, f.mode).value;
             Followed(stubs, At(f.mode, i)) && img.InSegment(i.target.value) && OpFits(i)
    ensures var i, ctx := img.decode(a, f.mode).value, ContextOf(img, stubs, funcs);
            var t := i.target.value;
            Translate(i, ctx.Lookup(i, labels)) ==
            (Always, if ClearThumb(t) in stubs then CallImport(t) else CallFunc(t))
  {
    hide Complete, Image.Decodes, ReachesPlainly;
    TakenIsDecoded(img, stubs, dec, funcs, f, a);
    assert dec[a].i == img.decode(a, f.mode).value;
    assert dec[a] == At(f.mode, img.decode(a, f.mode).value);
    FollowedCallsBind(img, stubs, dec, funcs, labels, a);
  }

  /** The whole tool: discover, then emit. Discovery's registry has no duplicates, so
      every function is defined exactly once, within the limit by its printed body;
      nothing dangles; every followed call in range binds; the table binds exactly what
      was discovered and imported. */
  method Recompile(img: Image, stubs: seq<nat>, entries: seq<Seed>, regions: seq<seq<nat>>,
                   prologue: nat -> bool, limit: nat)
    returns (out: Output, funcs: seq<Found>, ghost dec: Decoded)
    requires img.Decodes() && Aligned(img) && Sorted(stubs)
    requires forall s :: s in entries ==> s.addr % 2 == 0 && !s.heur
    ensures Complete(img, stubs, dec, funcs) && Held(img, dec) && forall a :: a in dec ==> Owned(img, dec, funcs, a)
    ensures exists owner :: Credits(img, dec, owner, funcs)
    ensures PointersServed(img, regions, prologue, funcs)
    ensures forall k :: 0 <= k < |funcs| ==> DefinedOnce(out.defs, funcs[k].addr)
    ensures forall d :: d in out.defs ==> Sound(ContextOf(img, stubs, funcs), d.lines)
    ensures Built(Program(ContextOf(img, stubs, funcs), ToFuncs(funcs), out))
    ensures forall k :: 0 <= k < |funcs| && (limit == 0 || k < limit) ==>
              Emits(ContextOf(img, stubs, funcs), out, ToFunc(funcs[k]))
  {
    hide Image.Decodes, Aligned, Sorted, Complete, Sound, Built, DefinedOnce;
    hide SortAddrs, Emits, Justified, Owned, Tallied, PointersServed, Held, Credits;
    var total;
    funcs, total, dec := DiscoverAll(img, stubs, entries, regions, prologue);
    var fs := ToFuncs(funcs);
    assert Distinct(FuncAddrs(fs));
    out := EmitModule(img, fs, stubs, limit);
    forall k | 0 <= k < |funcs| ensures DefinedOnce(out.defs, funcs[k].addr) {
      assert fs[k] in fs;
    }
  }

  // ----- from bytes

  /** The halfwords shape_scan takes for the start of a function: a push of low registers,
      PUSH.W, or a step of sp downwards. */
  predicate PushLike(h: nat) {
    h / 0x200 == 0x5A || h == 0xE92D || h / 0x80 == 0x161
  }

  /** PUSH with any list (A8.8.133), with or without lr, and SUB sp (A8.8.225) by any
      amount, and no other 16-bit instruction; of 32 bits the first half of PUSH.W. */
  lemma PushLikeIff(h: nat)
    requires h < 0x10000
    ensures h >= 0xE800 ==> (PushLike(h) <==> h == 0xE92D)
    ensures h < 0xE800 ==> (PushLike(h) <==> PushOrSub(h))
  {
    if h < 0xE800 && PushLike(h) {
      if h / 0x200 == 0x5A {
        assert h == EncodePush(h % 0x100, h / 0x100 % 2);
      } else {
        assert h == EncodeSubSp(h % 0x80);
      }
    }
  }

  ghost predicate PushOrSub(h: nat) {
    || (exists list: nat, lr: nat :: list < 0x100 && lr < 2 && h == EncodePush(list, lr))
    || (exists n: nat :: n < 0x80 && h == EncodeSubSp(n))
  }

  function EncodePush(list: nat, lr: nat): nat {
    0xB400 + 0x100 * lr + list
  }

  function EncodeSubSp(n: nat): nat {
    0xB080 + n
  }

  predicate Prologue(seg: Segment, t: nat) {
    seg.Maps(t, 2) && PushLike(Half(seg.bytes, t - seg.va))
  }

  function PrologueOf(seg: Segment): nat -> bool {
    (t: nat) => Prologue(seg, t)
  }

  /** The words of a region, a rest of less than four bytes left out. */
  function WordsOf(bytes: seq<byte>): (r: seq<nat>)
    ensures |r| == |bytes| / 4
  {
    seq(|bytes| / 4, k requires 0 <= k < |bytes| / 4 =>
      Half(bytes, 4 * k) + 0x1_0000 * Half(bytes, 4 * k + 2))
  }

  /** They are what was laid out as words. */
  lemma {:induction false} WordsLaidOut(ws: seq<word>)
    ensures |WordsOf(WordsBytes(ws))| == |ws|
    ensures forall k :: 0 <= k < |ws| ==> WordsOf(WordsBytes(ws))[k] == ws[k]
  {
    hide WordsBytes;
    forall k | 0 <= k < |ws| ensures WordsOf(WordsBytes(ws))[k] == ws[k] {
      WordsBytesAt(ws, k, 0);
      WordsBytesAt(ws, k, 1);
      WordsBytesAt(ws, k, 2);
      WordsBytesAt(ws, k, 3);
      BytesOfWord(ws[k]);
    }
  }

  /** The executable segment first, then the data segments. */
  function RegionsOf(seg: Segment, tables: seq<seq<byte>>): (r: seq<seq<nat>>)
    ensures |r| == |tables| + 1
  {
    [WordsOf(seg.bytes)] + seq(|tables|, i requires 0 <= i < |tables| => WordsOf(tables[i]))
  }

  /** So the scan sees the words that were laid out, in each region. */
  lemma RegionsLaidOut(seg: Segment, tables: seq<seq<byte>>, i: nat, ws: seq<word>, k: nat)
    requires k < |ws| && i <= |tables| && WordsBytes(ws) == if i == 0 then seg.bytes else tables[i - 1]
    ensures |RegionsOf(seg, tables)[i]| == |ws| && RegionsOf(seg, tables)[i][k] == ws[k]
  {
    RegionIs(seg, tables, i);
    hide WordsBytes, WordsOf, RegionsOf;
    WordsLaidOut(ws);
  }

  lemma RegionIs(seg: Segment, tables: seq<seq<byte>>, i: nat)
    requires i <= |tables|
    ensures RegionsOf(seg, tables)[i] == WordsOf(if i == 0 then seg.bytes else tables[i - 1])
  {
    hide WordsOf;
  }

  /** The prologue test looks at the halfword at the address. */
  lemma PrologueLaidOut(seg: Segment, t: nat, h: nat)
    requires h < 0x10000 && seg.va <= t && t - seg.va + 2 <= |seg.bytes|
    requires forall j :: 0 <= j < 2 ==> seg.bytes[t - seg.va + j] as int == ByteOf(h, j)
    ensures PrologueOf(seg)(t) <==> PushLike(h)
  {
    hide PushLike;
    HalfMakesUp(h);
    assert seg.bytes[t - seg.va + 0] as int == ByteOf(h, 0) && seg.bytes[t - seg.va + 1] as int == ByteOf(h, 1);
  }

  /** The same from the bytes of the segments and the import records: the decoder and the
      stub table meet what discovery and emission ask of them. */
  method RecompileSegment(seg: Segment, data: nat -> DataForm, imports: seq<Import>, entries: seq<Seed>,
                          tables: seq<seq<byte>>, limit: nat)
    returns (out: Output, funcs: seq<Found>, stubs: seq<nat>, ghost dec: Decoded)
    requires seg.va % 2 == 0 && Distinct(Addrs(Table(seg, imports, |imports|)))
    requires forall s :: s in entries ==> s.addr % 2 == 0 && !s.heur
    ensures forall a :: a in stubs <==> exists s :: Imported(seg, imports, s) && s.addr == a
    ensures var img := ImageOf(seg.bytes, seg.va, data);
            && Complete(img, stubs, dec, funcs) && Held(img, dec)
            && (forall a :: a in dec ==> Owned(img, dec, funcs, a))
            && PointersServed(img, RegionsOf(seg, tables), PrologueOf(seg), funcs)
            && (forall d :: d in out.defs ==> Sound(ContextOf(img, stubs, funcs), d.lines))
            && Built(Program(ContextOf(img, stubs, funcs), ToFuncs(funcs), out))
            && forall k :: 0 <= k < |funcs| && (limit == 0 || k < limit) ==>
                 Emits(ContextOf(img, stubs, funcs), out, ToFunc(funcs[k]))
    ensures forall k :: 0 <= k < |funcs| ==> DefinedOnce(out.defs, funcs[k].addr)
  {
    hide Image.Decodes, Aligned, Sorted, Distinct, Ordered, Complete;
    hide Sound, Built, DefinedOnce, SortAddrs, Imported, Emits, Owned, Held, PointersServed, PrologueOf;
    var img := ImageOf(seg.bytes, seg.va, data);
    DecoderMeetsContract(seg.bytes, seg.va, data);
    var table := BuildStubs(seg, imports);
    stubs := Addrs(table);
    AddrsOfTable(seg, imports, table);
    out, funcs, dec := Recompile(img, stubs, entries, RegionsOf(seg, tables), PrologueOf(seg), limit);
  }

  lemma AddrsOfTable(seg: Segment, imports: seq<Import>, table: seq<Stub>)
    requires forall s :: s in table <==> Imported(seg, imports, s)
    ensures forall a :: a in Addrs(table) <==> exists s :: Imported(seg, imports, s) && s.addr == a
  {
    hide Imported;
    forall a | a in Addrs(table) ensures exists s :: Imported(seg, imports, s) && s.addr == a {
      var k :| 0 <= k < |table| && Addrs(table)[k] == a;
      assert table[k] in table;
    }
    forall s | Imported(seg, imports, s) ensures s.addr in Addrs(table) {
      var k :| 0 <= k < |table| && table[k] == s;
      assert Addrs(table)[k] == s.addr;
    }
  }
}
