/** The C emitted for PUSH and POP: guest registers, guest memory, one against the other. */
module Stack {
  import opened Bits
  import opened Cpu
  import opened Memory

  const SP: nat := 13
  const LR: nat := 14
  const PC: nat := 15

  /** A register list, bit by bit. */
  type RegList = l: seq<bool> | |l| == 16 witness seq(16, i => false)

  /** How many of the registers below `i` are in the list: register `i`'s slot. */
  function Slots(list: RegList, i: nat): (r: nat)
    requires i <= 16
    ensures r <= i
  {
    if i == 0 then 0 else Slots(list, i - 1) + if list[i - 1] then 1 else 0
  }

  lemma {:induction false} SlotsMonotone(list: RegList, i: nat, j: nat)
    requires i < j <= 16
    ensures Slots(list, i) + (if list[i] then 1 else 0) <= Slots(list, j)
    decreases j
  {
    if i < j - 1 {
      SlotsMonotone(list, i, j - 1);
    }
  }

  /** Values laid out upwards from offset `o`, one word each. */
  function StoreAll(m: seq<byte>, o: nat, vals: seq<word>): (r: seq<byte>)
    requires o + 4 * |vals| <= |m|
    ensures |r| == |m|
  {
    if vals == [] then m else
      var n := |vals| - 1;
      Store(StoreAll(m, o, vals[..n]), o + 4 * n, vals[n])
  }

  lemma StoreAllSnoc(m: seq<byte>, o: nat, vals: seq<word>, v: word)
    requires o + 4 * (|vals| + 1) <= |m|
    ensures StoreAll(m, o, vals + [v]) == Store(StoreAll(m, o, vals), o + 4 * |vals|, v)
  {
    assert (vals + [v])[..|vals|] == vals;
  }

  lemma {:induction false} StoreAllLoads(m: seq<byte>, o: nat, vals: seq<word>, k: nat)
    requires o + 4 * |vals| <= |m| && k < |vals|
    ensures WordAt(StoreAll(m, o, vals), o + 4 * k) == vals[k]
    decreases |vals|
  {
    hide Store, WordAt;
    var n := |vals| - 1;
    var before := StoreAll(m, o, vals[..n]);
    if k == n {
      StoreLoads(before, o + 4 * n, vals[n]);
    } else {
      StoreElsewhere(before, o + 4 * n, vals[n], o + 4 * k);
      StoreAllLoads(m, o, vals[..n], k);
    }
  }

  lemma {:induction false} StoreAllElsewhere(m: seq<byte>, o: nat, vals: seq<word>)
    requires o + 4 * |vals| <= |m|
    ensures StoreAll(m, o, vals)[..o] == m[..o]
    ensures StoreAll(m, o, vals)[o + 4 * |vals|..] == m[o + 4 * |vals|..]
    decreases |vals|
  {
    if vals != [] {
      var n := |vals| - 1;
      var before := StoreAll(m, o, vals[..n]);
      StoreAllElsewhere(m, o, vals[..n]);
      assert before[o + 4 * |vals|..] == before[o + 4 * n..][4..];
      assert m[o + 4 * |vals|..] == m[o + 4 * n..][4..];
      assert Store(before, o + 4 * n, vals[n])[..o] == before[..o];
    }
  }

  /** The values PUSH stores, lowest register first. */
  function Pushed(list: RegList, regs: seq<word>, pc: word, i: nat): (r: seq<word>)
    requires |regs| == 16 && i <= 16
    ensures |r| == Slots(list, i)
  {
    if i == 0 then [] else
      Pushed(list, regs, pc, i - 1) + if list[i - 1] then [if i - 1 == PC then pc else regs[i - 1]] else []
  }

  lemma {:induction false} PushedAt(list: RegList, regs: seq<word>, pc: word, i: nat, n: nat)
    requires |regs| == 16 && i < n <= 16 && list[i] && i != PC
    ensures Slots(list, i) < Slots(list, n) && Pushed(list, regs, pc, n)[Slots(list, i)] == regs[i]
    decreases n
  {
    if i < n - 1 {
      PushedAt(list, regs, pc, i, n - 1);
    }
  }

  /** Memory after PUSH has stored the listed registers below `i`. */
  function PushedMemory(m: seq<byte>, o: nat, list: RegList, regs: seq<word>, pc: word, i: nat): (r: seq<byte>)
    requires |regs| == 16 && i <= 16 && o + 4 * Slots(list, i) <= |m|
    ensures |r| == |m|
  {
    StoreAll(m, o, Pushed(list, regs, pc, i))
  }

  lemma PushStep(m: seq<byte>, o: nat, list: RegList, regs: seq<word>, pc: word, i: nat)
    requires |regs| == 16 && i < 16 && o + 4 * Slots(list, i + 1) <= |m|
    ensures PushedMemory(m, o, list, regs, pc, 0) == m
    ensures PushedMemory(m, o, list, regs, pc, i + 1)
         == if list[i] then
              Store(PushedMemory(m, o, list, regs, pc, i), o + 4 * Slots(list, i), if i == PC then pc else regs[i])
            else PushedMemory(m, o, list, regs, pc, i)
  {
    hide Store;
    if list[i] {
      StoreAllSnoc(m, o, Pushed(list, regs, pc, i), if i == PC then pc else regs[i]);
    } else {
      assert Pushed(list, regs, pc, i + 1) == Pushed(list, regs, pc, i);
    }
  }

  // ----- what the loops do, backed or not

  /** A word at `at` is backed by `size` bytes based at `base`. */
  predicate Holds(size: nat, base: nat, at: nat) {
    base <= at && at - base + 4 <= size
  }

  /** The slots of a backed frame are backed, and their addresses do not wrap. */
  lemma SlotBacked(size: nat, base: nat, sp: word, list: RegList, i: nat)
    requires i < 16 && list[i]
    requires base <= sp && sp + 4 * Slots(list, 16) < WORD && sp - base + 4 * Slots(list, 16) <= size
    ensures Wrap(sp as int + 4 * Slots(list, i)) == sp + 4 * Slots(list, i)
    ensures Holds(size, base, sp + 4 * Slots(list, i))
  {
    SlotsMonotone(list, i, 16);
  }

  /** Memory after the emitted stores of the listed registers below `i`; a store that is
      not backed is dropped. */
  function PushRun(m: seq<byte>, base: nat, list: RegList, regs: seq<word>, pc: word, i: nat): (r: seq<byte>)
    requires |regs| == 16 && i <= 16
    ensures |r| == |m|
  {
    if i == 0 then m else
      var before := PushRun(m, base, list, regs, pc, i - 1);
      var at := Wrap(regs[SP] as int + 4 * Slots(list, i - 1));
      if list[i - 1] && Holds(|m|, base, at) then Store(before, at - base, if i - 1 == PC then pc else regs[i - 1])
      else before
  }

  /** Registers after the emitted loads of the listed registers below `i`; what is not
      backed reads as zero, and a listed sp moves the loads that follow. */
  function PopRun(m: seq<byte>, base: nat, list: RegList, regs: seq<word>, i: nat): (r: seq<word>)
    requires |regs| == 16 && i <= 16
    ensures |r| == 16
  {
    if i == 0 then regs else
      var before := PopRun(m, base, list, regs, i - 1);
      var at := Wrap(before[SP] as int + 4 * Slots(list, i - 1));
      if list[i - 1] && i - 1 != PC then before[i - 1 := if Holds(|m|, base, at) then WordAt(m, at - base) else 0]
      else before
  }

  /** Registers after a whole POP. */
  function Popped(m: seq<byte>, base: nat, list: RegList, regs: seq<word>): (r: seq<word>)
    requires |regs| == 16
    ensures |r| == 16
  {
    var q := PopRun(m, base, list, regs, 16);
    q[SP := Wrap(q[SP] as int + 4 * Slots(list, 16))]
  }

  /** In a backed frame that holds no sp the stores are the frame's layout. */
  lemma {:induction false} PushRunFramed(m: seq<byte>, base: nat, list: RegList, regs: seq<word>, sp: word, pc: word,
                                         i: nat)
    requires |regs| == 16 && i <= 16 && !list[SP]
    requires base <= sp && sp + 4 * Slots(list, 16) < WORD && sp - base + 4 * Slots(list, 16) <= |m|
    requires Slots(list, i) <= Slots(list, 16)
    ensures PushRun(m, base, list, regs[SP := sp], pc, i) == PushedMemory(m, sp - base, list, regs, pc, i)
  {
    hide Store, Wrap, Holds;
    if i > 0 {
      hide PushedMemory;
      SlotsMonotone(list, i - 1, 16);
      PushRunFramed(m, base, list, regs, sp, pc, i - 1);
      PushStep(m, sp - base, list, regs, pc, i - 1);
      if list[i - 1] {
        SlotBacked(|m|, base, sp, list, i - 1);
      }
    }
  }

  /** In a backed range, with no sp listed, every register comes from its slot. */
  lemma {:induction false} PopRunFramed(m: seq<byte>, base: nat, list: RegList, regs: seq<word>, i: nat)
    requires |regs| == 16 && i <= 16 && !list[SP]
    requires base <= regs[SP] && regs[SP] + 4 * Slots(list, 16) < WORD && regs[SP] - base + 4 * Slots(list, 16) <= |m|
    ensures var q := PopRun(m, base, list, regs, i);
            q[SP] == regs[SP] && forall j :: 0 <= j < 16 && j != SP ==>
              q[j] == if j < i && list[j] && j != PC then SlotWord(m, regs[SP] - base, list, j) else regs[j]
  {
    hide WordAt, Wrap, Holds;
    if i > 0 {
      PopRunFramed(m, base, list, regs, i - 1);
      if list[i - 1] {
        SlotBacked(|m|, base, regs[SP], list, i - 1);
      }
    }
  }

  lemma PoppedFramed(m: seq<byte>, base: nat, list: RegList, regs: seq<word>)
    requires |regs| == 16 && !list[SP]
    requires base <= regs[SP] && regs[SP] + 4 * Slots(list, 16) < WORD && regs[SP] - base + 4 * Slots(list, 16) <= |m|
    ensures var q := Popped(m, base, list, regs);
            q[SP] == regs[SP] + 4 * Slots(list, 16) && forall j :: 0 <= j < 16 && j != SP ==>
              q[j] == if list[j] && j != PC then SlotWord(m, regs[SP] - base, list, j) else regs[j]
  {
    hide SlotWord, PopRun;
    PopRunFramed(m, base, list, regs, 16);
  }

  /** The word in register `i`'s slot of a frame at offset `o`. */
  function SlotWord(m: seq<byte>, o: nat, list: RegList, i: nat): word
    requires i < 16 && list[i] && o + 4 * Slots(list, 16) <= |m|
  {
    SlotsMonotone(list, i, 16);
    WordAt(m, o + 4 * Slots(list, i))
  }

  class Machine {
    const r: array<word>
    const mem: Memory

    ghost predicate Valid() {
      r.Length == 16
    }

    constructor (memory: Memory)
      ensures Valid() && mem == memory && fresh(r)
    {
      mem := memory;
      r := new word[16](_ => 0);
    }

    /** The frame below `sp` that the list needs is backed, and the list holds no sp. */
    ghost predicate Framed(sp: word, list: RegList) {
      var n := 4 * Slots(list, 16);
      n <= sp && mem.Backed(sp - n, n) && !list[SP]
    }

    /** PUSH: one pre-decrement, then ascending stores; the PC is a constant. */
    method Push(list: RegList, pc: word)
      requires Valid() && r as object != mem.bytes
      modifies r, mem, mem.bytes
      ensures r[..] == old(r[..])[13 := Wrap(old(r[13]) as int - 4 * Slots(list, 16))]
      ensures mem.bytes[..] == PushRun(old(mem.bytes[..]), mem.base, list, r[..], pc, 16)
      ensures var sp := old(r[SP]);
              Framed(sp, list) ==>
                mem.bytes[..]
                == PushedMemory(old(mem.bytes[..]), sp - 4 * Slots(list, 16) - mem.base, list, old(r[..]), pc, 16)
    {
      hide Store, PushedMemory, Wrap, Memory.Backed, Holds;
      ghost var sp, regs, m := r[SP], r[..], mem.bytes[..];
      var count := CountRegs(list);
      r[SP] := Wrap(r[SP] as int - 4 * count);
      ghost var now := r[..];
      var slot := 0;
      for i := 0 to 16
        invariant slot == Slots(list, i) && r[..] == now
        invariant mem.bytes[..] == PushRun(m, mem.base, list, now, pc, i)
      {
        assert r[i] == r[..][i] && r[SP] == r[..][SP];
        if list[i] {
          PushOne(i, slot, pc);
          slot := slot + 1;
        }
      }
      if Framed(sp, list) {
        FrameFits(sp, list);
        PushRunFramed(m, mem.base, list, regs, sp - 4 * count, pc, 16);
      }
    }

    lemma FrameFits(sp: word, list: RegList)
      requires Framed(sp, list)
      ensures var n := 4 * Slots(list, 16);
              mem.base <= sp - n && sp - mem.base <= mem.bytes.Length && Wrap(sp - n) == sp - n
    {
    }

    /** One store of PUSH. */
    method PushOne(i: nat, slot: nat, pc: word)
      requires Valid() && i < 16 && r as object != mem.bytes
      modifies mem, mem.bytes
      ensures r[..] == old(r[..])
      ensures var at := Wrap(r[SP] as int + 4 * slot);
              mem.bytes[..] == if Holds(mem.bytes.Length, mem.base, at) then
                                 Store(old(mem.bytes[..]), at - mem.base, if i == PC then pc else r[i])
                               else old(mem.bytes[..])
    {
      hide Store;
      mem.Write32(Wrap(r[SP] as int + 4 * slot), if i == PC then pc else r[i]);
    }

    method CountRegs(list: RegList) returns (count: nat)
      ensures count == Slots(list, 16)
    {
      count := 0;
      for i := 0 to 16
        invariant count == Slots(list, i)
      {
        if list[i] {
          count := count + 1;
        }
      }
    }

    /** POP: ascending loads, one post-increment; the PC's slot is skipped and returns. */
    method Pop(list: RegList) returns (ret: bool)
      requires Valid() && r as object != mem.bytes
      modifies r, mem
      ensures ret == list[15]
      ensures r[..] == Popped(mem.bytes[..], mem.base, list, old(r[..]))
      ensures var sp, n := old(r[SP]), 4 * Slots(list, 16);
              !list[SP] && sp + n < WORD && mem.Backed(sp, n) ==>
                && r[SP] == sp + n
                && forall i :: 0 <= i < 16 && i != SP ==>
                     r[i] == if list[i] && i != PC then SlotWord(mem.bytes[..], sp - mem.base, list, i)
                             else old(r[i])
    {
      hide SlotWord, Popped;
      ghost var regs, m := r[..], mem.bytes[..];
      ret := PopAll(list);
      if !list[SP] && regs[SP] + 4 * Slots(list, 16) < WORD && mem.Backed(regs[SP], 4 * Slots(list, 16)) {
        PoppedFramed(m, mem.base, list, regs);
        assert r[SP] == r[..][SP] && forall i :: 0 <= i < 16 ==> r[i] == r[..][i];
      }
    }

    method PopAll(list: RegList) returns (ret: bool)
      requires Valid() && r as object != mem.bytes
      modifies r, mem
      ensures ret == list[PC] && r[..] == Popped(mem.bytes[..], mem.base, list, old(r[..]))
    {
      hide WordAt, Holds, Wrap;
      ghost var regs, m := r[..], mem.bytes[..];
      var slot := 0;
      for i := 0 to 16
        invariant slot == Slots(list, i)
        invariant r[..] == PopRun(m, mem.base, list, regs, i)
      {
        assert r[SP] == r[..][SP];
        if list[i] {
          if i != PC {
            PopOne(i, slot);
          }
          slot := slot + 1;
        }
      }
      assert r[SP] == r[..][SP];
      r[SP] := Wrap(r[SP] as int + 4 * slot);
      ret := list[PC];
    }

    /** One load of POP. */
    method PopOne(i: nat, slot: nat)
      requires Valid() && i < 16 && r as object != mem.bytes
      modifies r, mem
      ensures var at := Wrap(old(r[SP]) as int + 4 * slot);
              r[..]
              == old(r[..])[i := if Holds(mem.bytes.Length, mem.base, at)
                                  then WordAt(mem.bytes[..], at - mem.base) else 0]
    {
      hide WordAt;
      r[i] := mem.Read32(Wrap(r[SP] as int + 4 * slot));
    }

    /** What runs between a function's PUSH and its POP: anything that gives sp back and
        writes no byte of the frame at offsets `lo..hi`. */
    method Work(values: seq<word>, bytes: seq<byte>, lo: nat, hi: nat)
      requires Valid() && r as object != mem.bytes && |values| == 16
      requires |bytes| == mem.bytes.Length && lo <= hi <= |bytes|
      modifies r, mem.bytes
      ensures r[..] == values[SP := old(r[SP])]
      ensures mem.bytes[..] == Outside(old(mem.bytes[..]), bytes, lo, hi)
    {
      for i := 0 to 16
        invariant r[SP] == old(r[SP])
        invariant forall j :: 0 <= j < i && j != SP ==> r[j] == values[j]
        invariant mem.bytes[..] == old(mem.bytes[..])
      {
        if i != SP {
          r[i] := values[i];
        }
      }
      forall i | 0 <= i < |bytes| && !(lo <= i < hi) {
        mem.bytes[i] := bytes[i];
      }
    }

    /** PUSH, any work, POP: the listed registers and sp come back, memory outside the
        frame is what the work left there, the frame is what was pushed, and popping the
        PC in lr's place restores the rest alike. */
    method PushWorkPop(list: RegList, pc: word, values: seq<word>, bytes: seq<byte>, toPc: bool) returns (ret: bool)
      requires Valid() && r as object != mem.bytes && |values| == 16 && |bytes| == mem.bytes.Length
      modifies r, mem, mem.bytes
      ensures var sp, n := old(r[13]), 4 * Slots(list, 16);
              Framed(sp, list) && !list[15] && (toPc ==> list[14]) ==>
                && ret == toPc && r[13] == sp
                && (forall i :: 0 <= i < 15 && list[i] && !(toPc && i == 14) ==> r[i] == old(r[i]))
                && (forall i :: 0 <= i < 15 && !list[i] && i != 13 ==> r[i] == values[i])
                && var o := sp - n - mem.base;
                   mem.bytes[..]
                   == Outside(PushedMemory(old(mem.bytes[..]), o, list, old(r[..]), pc, 16), bytes, o, o + n)
    {
      hide PushedMemory, WordAt, Store, Outside, SlotWord, Memory.Backed, PushRun, Popped, Wrap;
      ghost var sp, n := r[SP], 4 * Slots(list, 16);
      ghost var regs, m := r[..], mem.bytes[..];
      var popped: RegList := if toPc then list[LR := false][PC := true] else list;
      var lo, hi := FrameOffsets(list);
      Push(list, pc);
      Work(values, bytes, lo, hi);
      ret := Pop(popped);
      if Framed(sp, list) && !list[PC] && (toPc ==> list[LR]) {
        FrameFits(sp, list);
        PoppedSlots(list, popped, toPc);
        ghost var pushed := PushedMemory(m, lo, list, regs, pc, 16);
        forall i | 0 <= i < 15 && list[i] && !(toPc && i == LR) ensures r[i] == regs[i] {
          SlotInFrame(pushed, bytes, lo, popped, i);
          PushedSlot(m, lo, list, regs, pc, popped, i);
        }
        forall i | 0 <= i < 15 && !list[i] && i != SP ensures r[i] == values[i] {
          assert !popped[i] && values[SP := Wrap(sp - n)][i] == values[i];
        }
      }
    }

    /** Where the frame for a list lies in the backing memory; nowhere if not backed. */
    method FrameOffsets(list: RegList) returns (lo: nat, hi: nat)
      requires Valid()
      ensures lo <= hi <= mem.bytes.Length
      ensures Framed(r[SP], list) ==> lo == r[SP] - 4 * Slots(list, 16) - mem.base && hi == lo + 4 * Slots(list, 16)
    {
      var count := CountRegs(list);
      if 4 * count <= r[SP] && mem.Backed(r[SP] - 4 * count, 4 * count) {
        lo := r[SP] - 4 * count - mem.base;
        hi := lo + 4 * count;
      } else {
        lo, hi := 0, 0;
      }
    }
  }

  /** `bytes` everywhere but at offsets `lo..hi`, where `m` is kept. */
  function Outside(m: seq<byte>, bytes: seq<byte>, lo: nat, hi: nat): (r: seq<byte>)
    requires |m| == |bytes| && lo <= hi <= |m|
    ensures |r| == |m|
  {
    bytes[..lo] + m[lo..hi] + bytes[hi..]
  }

  /** The work cannot reach a slot of the frame. */
  lemma SlotInFrame(m: seq<byte>, bytes: seq<byte>, o: nat, list: RegList, i: nat)
    requires |m| == |bytes| && o + 4 * Slots(list, 16) <= |m| && i < 16 && list[i]
    ensures SlotWord(Outside(m, bytes, o, o + 4 * Slots(list, 16)), o, list, i) == SlotWord(m, o, list, i)
  {
    SlotsMonotone(list, i, 16);
    var w := Outside(m, bytes, o, o + 4 * Slots(list, 16));
    assert forall j :: o <= j < o + 4 * Slots(list, 16) ==> w[j] == m[j];
  }

  /** Popping the PC where lr was pushed uses the same slots. */
  lemma PoppedSlots(list: RegList, popped: RegList, toPc: bool)
    requires !list[PC] && (toPc ==> list[LR])
    requires popped == if toPc then list[LR := false][PC := true] else list
    ensures Slots(popped, 16) == Slots(list, 16)
    ensures forall i :: 0 <= i <= 14 ==> Slots(popped, i) == Slots(list, i)
  {
    forall i | 0 <= i <= 14 ensures Slots(popped, i) == Slots(list, i) {
      SameSlots(list, popped, i);
    }
    LastSlots(list);
    LastSlots(popped);
  }

  lemma LastSlots(list: RegList)
    ensures Slots(list, 16) == Slots(list, 14) + (if list[LR] then 1 else 0) + (if list[PC] then 1 else 0)
  {
    assert Slots(list, 15) == Slots(list, 14) + if list[LR] then 1 else 0;
  }

  lemma {:induction false} SameSlots(a: RegList, b: RegList, i: nat)
    requires i <= 14 && a[..14] == b[..14]
    ensures Slots(a, i) == Slots(b, i)
  {
    if i > 0 {
      SameSlots(a, b, i - 1);
      assert a[..14][i - 1] == b[..14][i - 1];
    }
  }

  lemma PushedElsewhere(m: seq<byte>, o: nat, list: RegList, regs: seq<word>, pc: word)
    requires |regs| == 16 && o + 4 * Slots(list, 16) <= |m|
    ensures var after, end := PushedMemory(m, o, list, regs, pc, 16), o + 4 * Slots(list, 16);
            after[..o] == m[..o] && after[end..] == m[end..]
  {
    StoreAllElsewhere(m, o, Pushed(list, regs, pc, 16));
  }

  /** A register's slot holds what was pushed from it. */
  lemma PushedSlot(m: seq<byte>, o: nat, list: RegList, regs: seq<word>, pc: word, popped: RegList, i: nat)
    requires |regs| == 16 && i < 15 && list[i] && popped[i] && o + 4 * Slots(list, 16) <= |m|
    requires Slots(popped, 16) == Slots(list, 16) && Slots(popped, i) == Slots(list, i)
    ensures SlotWord(PushedMemory(m, o, list, regs, pc, 16), o, popped, i) == regs[i]
  {
    hide StoreAll, WordAt;
    PushedAt(list, regs, pc, i, 16);
    StoreAllLoads(m, o, Pushed(list, regs, pc, 16), Slots(list, i));
  }
}
