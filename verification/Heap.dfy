/** The guest heap of hle_libc.c: a bump allocator whose blocks never meet. */
module Heap {
  import opened Bits
  import opened Cpu
  import opened Memory

  /** A block handed out: where it is, and the size asked for. The place is counted on
      from the heap's base; the guest sees it modulo 2^32. */
  datatype Block = Block(at: nat, size: nat)
  {
    /** The block by its pointer. */
    function Seen(): Block {
      Block(Wrap(at), size)
    }
  }

  predicate Apart(a: Block, b: Block) {
    a.at + a.size <= b.at || b.at + b.size <= a.at
  }

  /** Round up to a multiple of eight, in 32 bits: `(n + 7) & ~7`. */
  function RoundUp(n: word): word {
    Wrap(n + 7) / 8 * 8
  }

  /** Rounding up loses to a wrap exactly past the last multiple of eight. */
  lemma RoundUpIs(n: word)
    ensures RoundUp(n) % 8 == 0
    ensures if n > 0xFFFF_FFF8 then RoundUp(n) == 0 else n <= RoundUp(n) < n + 8
  {
  }

  /** Every block is non-empty, 8-aligned within the heap, clear of the errno word,
      below the cursor, and apart from every other. */
  ghost predicate Separate(blocks: seq<Block>, base: nat, used: nat) {
    && (forall i :: 0 <= i < |blocks| ==>
          var b := blocks[i];
          b.size > 0 && base + 4 <= b.at && (b.at - base) % 8 == 0 && b.at + b.size <= base + used)
    && (forall i, j :: 0 <= i < j < |blocks| ==> Apart(blocks[i], blocks[j]))
  }

  datatype Op = Malloc(n: word) | Realloc(p: word, n: word) | Free(p: word)

  /** What a run of calls gave out: one block of the size asked for per success. */
  function Granted(ops: seq<Op>, outs: seq<Outcome>): (r: seq<Block>)
    requires |ops| == |outs|
  {
    if ops == [] then [] else
      var k := |ops| - 1;
      Granted(ops[..k], outs[..k])
      + if outs[k].Given? && !ops[k].Free? then [Block(outs[k].at, ops[k].n)] else []
  }

  /** A block, whose pointer is its place modulo 2^32, or why an allocation came back null:
      nothing was asked for, the arithmetic wrapped, or the heap is exhausted or was never
      there and the call traps. A block at 2^32 is null to the guest as well. */
  datatype Outcome = Given(at: nat) | Nothing | Wrapped | Trapped

  class Heap {
    const mem: Memory
    const base: word
    const size: word
    var used: nat
    ghost var blocks: seq<Block>

    /** A heap too small for the errno word is empty. */
    ghost predicate Valid()
      reads this
    {
      && used <= size
      && (if size >= 4 then used >= 4 else used == 0 && blocks == [])
      && Separate(blocks, base, used)
    }

    /** The heap ends in the 32-bit space and is backed by guest memory. */
    ghost predicate Backing() {
      base + size <= WORD && mem.Backed(base, size)
    }

    /** The bytes of the errno word. */
    ghost function Errno(): seq<byte>
      reads mem.bytes
    {
      Guest(base, 4)
    }

    /** The first `n` bytes from a guest address, as far as they are backed. */
    ghost function Guest(addr: nat, n: nat): seq<byte>
      reads mem.bytes
    {
      View(mem.bytes[..], mem.base, addr, n)
    }

    /** `vita_heap_init`. */
    constructor (memory: Memory, base: word, size: word)
      ensures Valid() && blocks == [] && mem == memory && this.base == base && this.size == size
      ensures used == if size >= 4 then 4 else 0
    {
      mem, this.base, this.size, blocks := memory, base, size, [];
      used := if size >= 4 then 4 else 0;
    }

    /** `heap_alloc`: the first aligned offset past the cursor, or null. */
    method Alloc(n: word) returns (o: Outcome)
      requires Valid() && n > 0
      modifies this
      ensures Valid() && o != Nothing
      ensures o.Given? ==> blocks == old(blocks) + [Block(o.at, n)] && o.at == base + RoundUp(old(used))
      ensures o.Given? ==> used == RoundUp(old(used)) + RoundUp(n) && base + 4 <= o.at && o.at + n <= base + used
      ensures o.Given? ==> forall b :: b in old(blocks) ==> b.at != o.at
      ensures !o.Given? ==> blocks == old(blocks) && used == old(used)
      ensures o == Wrapped <==> size > 0 && (n > 0xFFFF_FFF8 || old(used) > 0xFFFF_FFF8)
      ensures o == Trapped <==> size == 0 || (o != Wrapped && RoundUp(old(used)) + RoundUp(n) > size)
    {
      hide RoundUp, Separate;
      if size == 0 {
        return Trapped;
      }
      RoundUpIs(used);
      RoundUpIs(n);
      var atOff := RoundUp(used);
      var rounded := RoundUp(n);
      if rounded < n || atOff < used {
        return Wrapped;
      }
      if atOff > size || rounded > size - atOff {
        return Trapped;
      }
      BlockFits(blocks, base, used, atOff, atOff + rounded, n);
      used := atOff + rounded;
      blocks := blocks + [Block(base + atOff, n)];
      return Given(base + atOff);
    }

    /** `vita_hle_malloc`. */
    method Malloc(n: word) returns (o: Outcome)
      requires Valid()
      modifies this
      ensures Valid() && (n == 0 <==> o == Nothing)
      ensures blocks == if o.Given? then old(blocks) + [Block(o.at, n)] else old(blocks)
      ensures o.Given? ==> forall b :: b in old(blocks) ==> b.at != o.at
    {
      hide Separate;
      if n == 0 {
        return Nothing;
      }
      o := Alloc(n);
    }

    /** What realloc copies from `p`: at most `n` bytes, and no more than avail gives. */
    function Copied(p: nat, n: nat): nat {
      if n < mem.Avail(p) then n else mem.Avail(p)
    }

    /** Memory after `n` bytes were asked for in place of the block at `p`: those bytes are
        moved, if the two ends are backed and neither pointer is null. */
    ghost function Carried(m: seq<byte>, p: word, o: Outcome, n: nat): seq<byte>
      requires |m| == mem.bytes.Length
    {
      if o.Given? && p != 0 && Wrap(o.at) != 0
         && mem.Backed(Wrap(o.at), Copied(p, n)) && mem.Backed(p, Copied(p, n)) then
        Moved(m, Wrap(o.at) - mem.base, p - mem.base, Copied(p, n))
      else m
    }

    /** `vita_hle_realloc`: a fresh block and a copy bounded by what memory can back. Of a
        live block of a backed heap all that fits is carried over, as far as avail sees;
        only where 4 GiB or more are backed from it does that cut the copy short. */
    method Realloc(p: word, n: word) returns (o: Outcome)
      requires Valid()
      modifies this, mem`bad, mem.bytes
      ensures Valid() && (n == 0 <==> o == Nothing)
      ensures blocks == if o.Given? then old(blocks) + [Block(o.at, n)] else old(blocks)
      ensures o.Given? ==> forall b :: b in old(blocks) ==> b.at != o.at
      ensures mem.bytes[..] == Carried(old(mem.bytes[..]), p, o, n)
      ensures o.Given? && p != 0 && Backing() ==>
                forall b :: b in old(blocks) && b.at == p ==>
                  var c := Least(b.size, Copied(p, n));
                  && |Guest(o.at, c)| == c && Guest(o.at, c) == old(Guest(p, c))
                  && (c < Least(b.size, n) ==> mem.bytes.Length - (p - mem.base) >= WORD)
      ensures Errno() == old(Errno())
    {
      hide Separate, View, Carried, Copied, Wrap, Memory.Backed;
      if n == 0 {
        NothingCarried(mem.bytes[..], p);
        return Nothing;
      }
      ghost var live, top, was := blocks, used, mem.bytes[..];
      o := Alloc(n);
      CopyOver(p, o, n);
      CarriedElsewhere(was, p, o, n);
      if o.Given? && p != 0 && Backing() {
        LiveBlocksKept(live, top, was, p, o.at, n);
      }
    }

    lemma NothingCarried(m: seq<byte>, p: word)
      requires |m| == mem.bytes.Length
      ensures Carried(m, p, Nothing, 0) == m
    {
    }

    /** The copy of realloc, after the allocation. */
    method CopyOver(p: word, o: Outcome, n: nat)
      modifies mem`bad, mem.bytes
      ensures mem.bytes[..] == Carried(old(mem.bytes[..]), p, o, n)
    {
      hide Moved, Wrap;
      if o.Given? && p != 0 && Wrap(o.at) != 0 {
        var copy := Copied(p, n);
        var okTo, to := mem.Ptr(Wrap(o.at), copy);
        var okFrom, from := mem.Ptr(p, copy);
        if okTo && okFrom {
          Move(to, from, copy);
        }
      }
    }

    /** What is carried over of a live block. */
    lemma LiveBlocksKept(live: seq<Block>, top: nat, m: seq<byte>, p: word, at: nat, n: nat)
      requires Separate(live, base, top) && top <= size && Backing() && |m| == mem.bytes.Length
      requires p != 0 && n > 0 && base + 4 <= at && at + n <= base + size
      ensures var m' := Carried(m, p, Given(at), n);
              forall b :: b in live && b.at == p ==>
                var c := Least(b.size, Copied(p, n));
                && |View(m', mem.base, at, c)| == c && View(m', mem.base, at, c) == View(m, mem.base, p, c)
                && (c < Least(b.size, n) ==> mem.bytes.Length - (p - mem.base) >= WORD)
    {
      hide View, Moved;
      assert Wrap(at) == at;
      forall b | b in live && b.at == p
        ensures var m', c := Carried(m, p, Given(at), n), Least(b.size, Copied(p, n));
                && |View(m', mem.base, at, c)| == c && View(m', mem.base, at, c) == View(m, mem.base, p, c)
                && (c < Least(b.size, n) ==> mem.bytes.Length - (p - mem.base) >= WORD)
      {
        var i :| 0 <= i < |live| && live[i] == b;
        assert mem.Backed(p, b.size);
        if mem.Backed(p, 0) {
          MovedNone(m, at - mem.base, p - mem.base);
        }
        MovedView(m, Carried(m, p, Given(at), n), mem.base, p, at, Copied(p, n), Least(b.size, Copied(p, n)));
      }
    }

    /** Only the new block changes, which is clear of the errno word. */
    lemma CarriedElsewhere(m: seq<byte>, p: word, o: Outcome, n: nat)
      requires |m| == mem.bytes.Length && (o.Given? ==> base + 4 <= o.at && o.at + n <= base + size)
      ensures var m' := Carried(m, p, o, n);
              && |m'| == |m| && View(m', mem.base, base, 4) == View(m, mem.base, base, 4)
              && forall a :: 0 <= a < |m| && (o.Given? ==> !(Wrap(o.at) <= mem.base + a < Wrap(o.at) + n)) ==>
                               m'[a] == m[a]
    {
      hide Moved;
      if o.Given? {
        SeenClear(base, Block(o.at, n), size);
      }
      if Carried(m, p, o, n) != m {
        MovedElsewhere(m, Wrap(o.at) - mem.base, p - mem.base, Copied(p, n));
      }
    }

    /** `memmove` inside the guest memory. */
    method Move(d: nat, s: nat, n: nat)
      requires d + n <= mem.bytes.Length && s + n <= mem.bytes.Length
      modifies mem.bytes
      ensures mem.bytes[..] == Moved(old(mem.bytes[..]), d, s, n)
    {
      forall k | 0 <= k < n {
        mem.bytes[d + k] := mem.bytes[s + k];
      }
    }

    /** One heap call; `free` gives nothing back. */
    method Do(op: Op) returns (o: Outcome)
      requires Valid()
      modifies this, mem`bad, mem.bytes
      ensures Valid()
      ensures blocks == old(blocks) + Granted([op], [o])
      ensures (o == Nothing <==> op.Free? || op.n == 0) && (o.Given? ==> !op.Free?)
      ensures Errno() == old(Errno())
    {
      hide Separate;
      match op
      case Malloc(n) =>
        o := Malloc(n);
      case Realloc(p, n) =>
        o := Realloc(p, n);
      case Free(_) =>
        o := Nothing;
    }

    /** A whole run: the blocks it gave out are pairwise apart, aligned and inside the
        heap, clear of the errno word, which is never touched; by their pointers too, also
        where these pass 2^32. */
    method Run(ops: seq<Op>) returns (outs: seq<Outcome>)
      requires Valid() && blocks == []
      modifies this, mem`bad, mem.bytes
      ensures Valid() && |outs| == |ops|
      ensures Separate(Granted(ops, outs), base, size)
      ensures forall i, j :: 0 <= i < j < |Granted(ops, outs)| ==>
                Apart(Granted(ops, outs)[i].Seen(), Granted(ops, outs)[j].Seen())
      ensures forall b :: b in Granted(ops, outs) ==> Apart(b.Seen(), Block(base, 4))
      ensures Errno() == old(Errno())
    {
      hide Granted;
      outs := [];
      GrantedNone();
      assert ops[..0] == [];
      for k := 0 to |ops|
        invariant Valid() && |outs| == k && Errno() == old(Errno())
        invariant blocks == Granted(ops[..k], outs)
      {
        hide Separate;
        var o := Do(ops[k]);
        GrantedSnoc(ops[..k], outs, ops[k], o);
        assert ops[..k + 1] == ops[..k] + [ops[k]];
        outs := outs + [o];
      }
      assert ops[..|ops|] == ops;
      SeenApart(Granted(ops, outs), base, size);
    }
  }

  function Least(a: nat, b: nat): nat {
    if a < b then a else b
  }

  /** A block's pointer range is clear of the errno word, wherever 2^32 falls. */
  lemma SeenClear(base: word, b: Block, size: word)
    requires base + 4 <= b.at && b.at + b.size <= base + size
    ensures Apart(b.Seen(), Block(base, 4))
  {
  }

  /** The guest sees a block's place modulo 2^32. */
  lemma SeenIs(b: Block)
    ensures b.Seen().at == b.at % 0x1_0000_0000 && b.Seen().size == b.size
  {
  }

  /** What is apart in a heap is apart by its pointers. */
  lemma SeenApart(blocks: seq<Block>, base: word, size: word)
    requires Separate(blocks, base, size)
    ensures forall i, j :: 0 <= i < j < |blocks| ==> Apart(blocks[i].Seen(), blocks[j].Seen())
    ensures forall b :: b in blocks ==> Apart(b.Seen(), Block(base, 4))
  {
    forall b | b in blocks ensures Apart(b.Seen(), Block(base, 4)) {
      var i :| 0 <= i < |blocks| && blocks[i] == b;
      SeenClear(base, b, size);
    }
  }

  lemma GrantedNone()
    ensures Granted([], []) == []
  {
  }

  lemma GrantedSnoc(ops: seq<Op>, outs: seq<Outcome>, op: Op, o: Outcome)
    requires |ops| == |outs|
    ensures Granted(ops + [op], outs + [o]) == Granted(ops, outs) + Granted([op], [o])
  {
    assert (ops + [op])[..|ops|] == ops && (outs + [o])[..|ops|] == outs;
    assert Granted([op][..0], [o][..0]) == [];
  }

  /** The first `n` bytes from a guest address of memory `m` based at `base`, as far as
      they are backed. */
  function View(m: seq<byte>, base: nat, addr: nat, n: nat): (r: seq<byte>) {
    if addr < base || addr - base >= |m| then []
    else if addr - base + n > |m| then m[addr - base..]
    else m[addr - base..addr - base + n]
  }

  function Moved(m: seq<byte>, d: nat, s: nat, n: nat): (r: seq<byte>)
    requires d + n <= |m| && s + n <= |m|
    ensures |r| == |m|
  {
    m[..d] + m[s..s + n] + m[d + n..]
  }

  lemma MovedNone(m: seq<byte>, d: nat, s: nat)
    requires d <= |m| && s <= |m|
    ensures Moved(m, d, s, 0) == m
  {
  }

  lemma MovedElsewhere(m: seq<byte>, d: nat, s: nat, n: nat)
    requires d + n <= |m| && s + n <= |m|
    ensures forall a :: 0 <= a < |m| && !(d <= a < d + n) ==> Moved(m, d, s, n)[a] == m[a]
  {
  }

  /** What was readable from `p` is readable from `q` after the move. */
  lemma MovedView(m: seq<byte>, m': seq<byte>, base: nat, p: nat, q: nat, n: nat, c: nat)
    requires base <= q && q - base + n <= |m| && c <= n && (n > 0 ==> base <= p && p - base + n <= |m|)
    requires if n > 0 then m' == Moved(m, q - base, p - base, n) else m' == m
    ensures |View(m', base, q, c)| == c && View(m', base, q, c) == View(m, base, p, c)
  {
    hide Moved;
    if c > 0 {
      var d, s := q - base, p - base;
      assert View(m', base, q, c) == m'[d..d + c] && View(m, base, p, c) == m[s..s + c];
      MovedSlice(m, d, s, n, c);
    } else {
      assert View(m', base, q, c) == [] == View(m, base, p, c);
    }
  }

  lemma MovedSlice(m: seq<byte>, d: nat, s: nat, n: nat, c: nat)
    requires d + n <= |m| && s + n <= |m| && c <= n
    ensures Moved(m, d, s, n)[d..d + c] == m[s..s + c]
  {
    var middle, rest := m[s..s + n], m[d + n..];
    assert Moved(m, d, s, n) == m[..d] + (middle + rest);
    assert Moved(m, d, s, n)[d..d + c] == (middle + rest)[..c] == middle[..c];
  }

  /** A block at an aligned offset past the cursor is apart from all before it. */
  lemma BlockFits(blocks: seq<Block>, base: nat, used: nat, off: nat, used': nat, n: nat)
    requires Separate(blocks, base, used) && used >= 4
    requires off >= used && off % 8 == 0 && off + n <= used' && n > 0
    ensures Separate(blocks + [Block(base + off, n)], base, used')
    ensures forall b :: b in blocks ==> b.at != base + off
  {
  }
}
