/** inflate.c as it is written: a reader and an output buffer updated in place,
    proved to compute exactly what Deflate.dfy says. */
module InflateImpl {
  import opened Bits
  import opened Huffman
  import opened Deflate
  import opened RoundTrip

  /** `outbuf`. `tail` is the caller's memory past the capacity, never written. */
  class OutBuf {
    const dst: array<byte>
    const cap: nat
    var pos: nat
    ghost const tail: seq<byte>

    ghost predicate Valid()
      reads this, dst
    {
      pos <= cap <= dst.Length && dst[cap..] == tail
    }

    ghost function Contents(): (r: seq<byte>)
      reads this, dst
      requires Valid()
      ensures |r| == pos <= cap
    {
      dst[..pos]
    }

    constructor (dst: array<byte>, cap: nat)
      requires cap <= dst.Length
      ensures Valid() && Contents() == [] && this.dst == dst && this.cap == cap && tail == dst[cap..]
    {
      this.dst, this.cap, pos, tail := dst, cap, 0, dst[cap..];
    }

    /** `emit`. */
    method Emit(b: byte) returns (full: bool)
      requires Valid()
      modifies this, dst
      ensures Valid() && full == (old(pos) >= cap)
      ensures Contents() == if full then old(Contents()) else old(Contents()) + [b]
    {
      if pos >= cap {
        return true;
      }
      dst[pos] := b;
      pos := pos + 1;
      return false;
    }

    /** The byte-at-a-time copy of a back-reference. */
    method CopyBack(distance: nat, length: nat) returns (full: bool)
      requires Valid() && 1 <= distance <= pos
      modifies this, dst
      ensures Valid() && full == (old(pos) + length > cap)
      ensures Contents() == Copy(old(Contents()), distance, if full then cap - old(pos) else length)
    {
      ghost var was := Contents();
      for i := 0 to length
        invariant Valid() && pos == old(pos) + i
        invariant Contents() == Copy(was, distance, i)
      {
        ghost var now := Contents();
        full := Emit(dst[pos - distance]);
        if full {
          return;
        }
        CopySnoc(was, distance, i);
      }
      full := false;
    }

    /** `memcpy` of `n` bytes of the source. */
    method Append(src: seq<byte>, from: nat, n: nat)
      requires Valid() && pos + n <= cap && from + n <= |src|
      modifies this, dst
      ensures Valid() && Contents() == old(Contents()) + src[from..from + n]
    {
      forall i | 0 <= i < n {
        dst[pos + i] := src[from + i];
      }
      pos := pos + n;
    }
  }

  lemma {:induction false} CopySnoc(out: seq<byte>, dist: nat, n: nat)
    requires 1 <= dist <= |out|
    ensures Copy(out, dist, n + 1) == Copy(out, dist, n) + [Copy(out, dist, n)[|out| + n - dist]]
    decreases n
  {
    if n > 0 {
      CopySnoc(out + [out[|out| - dist]], dist, n - 1);
    }
  }

  /** One turn of block_huffman's loop, up to the output. */
  method ReadSymbol(br: BitReader, lit: Huff, dist: Huff) returns (s: Symbol)
    requires br.Valid() && br.cnt < 8 && lit.Valid() && dist.Valid()
    modifies br
    ensures br.Valid() && br.cnt < 8
    ensures (s, br.Cur()) == ReadToken(ByteBits(br.src), old(br.Cur()), lit.ls, dist.ls)
  {
    hide ByteBits, Decode, GetBits, LenExtra, DistExtra, LenBase, DistBase;
    var sym := lit.DecodeSymbol(br);
    if br.overrun {
      return Bad(ErrInput);
    }
    if sym < 0 {
      return Bad(ErrFormat);
    }
    if sym < 256 {
      return Tok(Lit(sym));
    }
    if sym == 256 {
      return EndOfBlock;
    }
    if sym - 257 >= 29 {
      return Bad(ErrFormat);
    }
    var le := br.ReadBits(LenExtra(sym - 257));
    var ds := dist.DecodeSymbol(br);
    if br.overrun {
      return Bad(ErrInput);
    }
    if ds < 0 || ds >= 30 {
      return Bad(ErrFormat);
    }
    var de := br.ReadBits(DistExtra(ds));
    return Tok(Match(sym - 257, le, ds, de));
  }

  method BlockHuffmanInto(br: BitReader, o: OutBuf, lit: Huff, dist: Huff) returns (st: Status)
    requires br.Valid() && br.cnt < 8 && o.Valid() && lit.Valid() && dist.Valid()
    requires lit.counts as object != o.dst && lit.symbols as object != o.dst
    requires dist.counts as object != o.dst && dist.symbols as object != o.dst
    modifies br, o, o.dst
    ensures br.Valid() && br.cnt < 8 && o.Valid()
    ensures Run(st, br.Cur(), o.Contents())
         == BlockHuffman(ByteBits(br.src), old(br.Cur()), old(o.Contents()), o.cap, lit.ls, dist.ls)
  {
    hide ByteBits, ReadToken, Copy, LenBase, DistBase, Huff.Valid, BitReader.Valid;
    ghost var bits := ByteBits(br.src);
    ghost var target := BlockHuffman(bits, br.Cur(), o.Contents(), o.cap, lit.ls, dist.ls);
    while true
      invariant br.Valid() && br.cnt < 8 && o.Valid() && lit.Valid() && dist.Valid()
      invariant target == BlockHuffman(bits, br.Cur(), o.Contents(), o.cap, lit.ls, dist.ls)
      decreases |bits| - br.Cur().p
    {
      var s := ReadSymbol(br, lit, dist);
      match s
      case Bad(e) =>
        return e;
      case EndOfBlock =>
        return Ok;
      case Tok(Lit(b)) =>
        var full := o.Emit(b);
        if full {
          return ErrOutput;
        }
      case Tok(t) =>
        if t.Distance() > o.pos {
          return ErrDistance;
        }
        var full := o.CopyBack(t.Distance(), t.Length());
        if full {
          return ErrOutput;
        }
    }
  }

  method BlockStoredInto(br: BitReader, o: OutBuf) returns (st: Status)
    requires br.Valid() && br.cnt < 8 && o.Valid()
    modifies br, o, o.dst
    ensures br.Valid() && br.cnt < 8 && o.Valid()
    ensures Run(st, br.Cur(), o.Contents())
         == BlockStored(ByteBits(br.src), old(br.Cur()), old(o.Contents()), o.cap)
  {
    hide ByteBits, StoredAt;
    br.Align();
    st := StoredInto(br, o);
  }

  /** block_stored after the alignment. */
  method StoredInto(br: BitReader, o: OutBuf) returns (st: Status)
    requires br.Valid() && br.cnt == 0 && o.Valid()
    modifies br, o, o.dst
    ensures br.Valid() && br.cnt == 0 && o.Valid()
    ensures Run(st, br.Cur(), o.Contents())
         == StoredAt(ByteBits(br.src), 8 * old(br.pos), old(br.overrun), old(o.Contents()), o.cap)
  {
    hide ByteBits, Field, GetBits, BytesAt, Pow2;
    ghost var p := 8 * br.pos;
    if br.pos + 4 > |br.src| {
      return ErrInput;
    }
    FieldReads(br.src, br.pos, p);
    FieldReads(br.src, br.pos + 2, p + 16);
    var len := Field(br.src, br.pos);
    var nlen := Field(br.src, br.pos + 2);
    br.pos := br.pos + 4;
    if len + nlen != 0xFFFF {
      return ErrFormat;
    }
    if br.pos + len > |br.src| {
      return ErrInput;
    }
    if o.pos + len > o.cap {
      return ErrOutput;
    }
    SliceReads(br.src, br.pos, p + 32, len);
    o.Append(br.src, br.pos, len);
    br.pos := br.pos + len;
    return Ok;
  }

  /** A little-endian 16-bit field. */
  function Field(src: seq<byte>, q: nat): (r: nat)
    requires q + 2 <= |src|
    ensures r <= 0xFFFF
  {
    src[q] as int + 256 * (src[q + 1] as int)
  }

  lemma FieldReads(src: seq<byte>, q: nat, p: nat)
    requires q + 2 <= |src| && p == 8 * q
    ensures GetBits(ByteBits(src), 16, Cursor(p, false)).0 == Field(src, q)
  {
    hide ByteBits, GetBits, BitsOf;
    assert src[q..q + 2] == [src[q], src[q + 1]];
    AtBytes(src, q, [src[q], src[q + 1]]);
    FieldIsTwoBytes(src[q], src[q + 1]);
    GetBitsReads(ByteBits(src), 16, Cursor(8 * q, false), Field(src, q));
  }

  lemma SliceReads(src: seq<byte>, q: nat, p: nat, n: nat)
    requires q + n <= |src| && p == 8 * q
    ensures BytesAt(ByteBits(src), p, n) == src[q..q + n]
  {
    hide ByteBits;
    AtBytes(src, q, src[q..q + n]);
    BytesAtReads(ByteBits(src), 8 * q, src[q..q + n]);
  }

  /** Fills `clen_lengths`. */
  method ReadClenInto(br: BitReader, hclen: nat) returns (clen: Lengths)
    requires br.Valid() && br.cnt < 8 && hclen <= 19
    modifies br
    ensures br.Valid() && br.cnt < 8
    ensures (clen, br.Cur()) == ReadClen(ByteBits(br.src), old(br.Cur()), 0, hclen, Replicate(0, 19))
  {
    hide ByteBits, GetBits, ClenOrder;
    ghost var bits := ByteBits(br.src);
    ghost var target := ReadClen(bits, br.Cur(), 0, hclen, Replicate(0, 19));
    var a := new nat[19](i => 0);
    assert a[..] == Replicate(0, 19);
    for i := 0 to hclen
      invariant br.Valid() && br.cnt < 8
      invariant forall k :: 0 <= k < 19 ==> a[k] <= 15
      invariant target == ReadClen(bits, br.Cur(), i, hclen, a[..])
    {
      Pow2Values();
      ghost var was := a[..];
      var v := br.ReadBits(3);
      a[ClenOrder(i)] := v;
      assert a[..] == was[ClenOrder(i) := v];
    }
    clen := a[..];
  }

  /** One turn of the length-reading loop, up to the append. */
  method ReadItemFrom(br: BitReader, clen: Huff, first: bool) returns (r: ItemResult)
    requires br.Valid() && br.cnt < 8 && clen.Valid() && |clen.ls| == 19
    modifies br
    ensures br.Valid() && br.cnt < 8
    ensures (r, br.Cur()) == ReadItem(ByteBits(br.src), old(br.Cur()), clen.ls, first)
  {
    hide ByteBits, Decode, GetBits;
    var sym := clen.DecodeSymbol(br);
    if br.overrun {
      return BadItem(ErrInput);
    }
    if sym < 0 {
      return BadItem(ErrFormat);
    }
    if sym < 16 {
      return Good(Len(sym));
    }
    if sym == 16 {
      if first {
        return BadItem(ErrFormat);
      }
      var e := br.ReadBits(2);
      return Good(Repeat(3 + e));
    }
    if sym == 17 {
      var e := br.ReadBits(3);
      return Good(Zeros(3 + e));
    }
    var e := br.ReadBits(7);
    return Good(LongZeros(11 + e));
  }

  /** `while (rep--) lengths[n++] = v`. */
  method Fill(lengths: array<nat>, n: nat, more: Lengths)
    requires n + |more| <= lengths.Length
    modifies lengths
    ensures lengths[..n + |more|] == old(lengths[..n]) + more
  {
    for i := 0 to |more|
      invariant lengths[..n + i] == old(lengths[..n]) + more[..i]
    {
      lengths[n + i] := more[i];
    }
  }

  method ReadLengthsInto(br: BitReader, clen: Huff, total: nat) returns (st: Status, acc: Lengths)
    requires br.Valid() && br.cnt < 8 && clen.Valid() && |clen.ls| == 19 && total <= 318
    modifies br
    ensures br.Valid() && br.cnt < 8
    ensures LengthsRun(st, br.Cur(), acc) == ReadLengths(ByteBits(br.src), old(br.Cur()), clen.ls, [], total)
  {
    hide ByteBits, ReadItem, Huff.Valid, BitReader.Valid;
    ghost var bits := ByteBits(br.src);
    ghost var target := ReadLengths(bits, br.Cur(), clen.ls, [], total);
    var lengths := new nat[318](i => 0);
    var n: nat := 0;
    acc := [];
    while n < total
      invariant br.Valid() && br.cnt < 8 && clen.Valid()
      invariant n <= total && acc == lengths[..n]
      invariant target == ReadLengths(bits, br.Cur(), clen.ls, acc, total)
      decreases |bits| - br.Cur().p
    {
      var r := ReadItemFrom(br, clen, n == 0);
      if r.BadItem? {
        return r.st, acc;
      }
      var more := Expansion(r.it, acc);
      if n + |more| > total {
        return ErrFormat, acc;
      }
      Fill(lengths, n, more);
      n := n + |more|;
      acc := acc + more;
    }
    st := Ok;
  }

  /** block_dynamic up to the two tables: every code length, or an error. */
  method ReadHeaderInto(br: BitReader) returns (st: Status, hlit: nat, lengths: Lengths)
    requires br.Valid() && br.cnt < 8
    modifies br
    ensures br.Valid() && br.cnt < 8
    ensures var h := ReadHeader(ByteBits(br.src), old(br.Cur()));
            if st == Ok then h == AllLengths(hlit, lengths, br.Cur()) else h == NoHeader(st, br.Cur())
  {
    hide ByteBits, GetBits, ReadClen, ReadLengths, Accepts, KraftSum, Pow2, Huff.Valid, BitReader.Valid;
    Pow2Values();
    lengths := [];
    var a := br.ReadBits(5);
    var b := br.ReadBits(5);
    var d := br.ReadBits(4);
    hlit := a + 257;
    var hdist, hclen := b + 1, d + 4;
    if hlit > 286 || hdist > 30 {
      return ErrFormat, hlit, lengths;
    }
    var clenLengths := ReadClenInto(br, hclen);
    if br.overrun {
      return ErrInput, hlit, lengths;
    }
    var clen := new Huff();
    AcceptsIffKraft(clenLengths);
    var ok := clen.Build(clenLengths);
    if !ok {
      return ErrFormat, hlit, lengths;
    }
    st, lengths := ReadLengthsInto(br, clen, hlit + hdist);
  }

  /** The rest of block_dynamic's header: its two tables, built, unless it is malformed. */
  method ReadTablesInto(br: BitReader, lit: Huff, dist: Huff) returns (st: Status)
    requires br.Valid() && br.cnt < 8
    requires lit.counts.Length == 16 && lit.symbols.Length == 288
    requires dist.counts.Length == 16 && dist.symbols.Length == 288
    requires lit != dist && {lit.counts, lit.symbols} !! {dist.counts, dist.symbols}
    modifies br, lit, lit.counts, lit.symbols, dist, dist.counts, dist.symbols
    ensures br.Valid() && br.cnt < 8
    ensures var t := ReadTables(ByteBits(br.src), old(br.Cur()));
            if st == Ok then lit.Valid() && dist.Valid() && t == Tables(lit.ls, dist.ls, br.Cur())
            else t == NoTables(st, br.Cur())
  {
    hide ByteBits, ReadHeader, Accepts, KraftSum, Pow2, Huff.Valid, BitReader.Valid;
    var hlit, lengths;
    st, hlit, lengths := ReadHeaderInto(br);
    if st != Ok {
      return st;
    }
    if lengths[256] == 0 {
      return ErrFormat;
    }
    AcceptsIffKraft(lengths[..hlit]);
    AcceptsIffKraft(lengths[hlit..]);
    var ok := lit.Build(lengths[..hlit]);
    if !ok {
      return ErrFormat;
    }
    ok := dist.Build(lengths[hlit..]);
    if !ok {
      return ErrFormat;
    }
  }

  method BlockDynamicInto(br: BitReader, o: OutBuf) returns (st: Status)
    requires br.Valid() && br.cnt < 8 && o.Valid()
    modifies br, o, o.dst
    ensures br.Valid() && br.cnt < 8 && o.Valid()
    ensures Run(st, br.Cur(), o.Contents())
         == BlockDynamic(ByteBits(br.src), old(br.Cur()), old(o.Contents()), o.cap)
  {
    hide ByteBits, ReadTables, BlockHuffman;
    var lit := new Huff();
    var dist := new Huff();
    st := ReadTablesInto(br, lit, dist);
    if st == Ok {
      st := BlockHuffmanInto(br, o, lit, dist);
    }
  }

  method BuildFixed(lit: Huff, dist: Huff)
    requires lit.counts.Length == 16 && lit.symbols.Length == 288
    requires dist.counts.Length == 16 && dist.symbols.Length == 288
    requires lit != dist && {lit.counts, lit.symbols} !! {dist.counts, dist.symbols}
    modifies lit, lit.counts, lit.symbols, dist, dist.counts, dist.symbols
    ensures lit.Valid() && lit.ls == FixedLit() && dist.Valid() && dist.ls == FixedDist()
  {
    hide FixedLit, FixedDist, KraftSum, Accepts, Huff.Valid;
    FixedAccepted();
    AcceptsIffKraft(FixedLit());
    AcceptsIffKraft(FixedDist());
    var lengths := new nat[288];
    FillFixed(lengths);
    var ok := lit.Build(lengths[..]);
    FillFive(lengths);
    ok := dist.Build(lengths[..30]);
  }

  method FillFixed(lengths: array<nat>)
    requires lengths.Length == 288
    modifies lengths
    ensures lengths[..] == FixedLit()
  {
    for i := 0 to 144
      invariant forall k :: 0 <= k < i ==> lengths[k] == 8
    {
      lengths[i] := 8;
    }
    for i := 144 to 256
      invariant forall k :: 0 <= k < 144 ==> lengths[k] == 8
      invariant forall k :: 144 <= k < i ==> lengths[k] == 9
    {
      lengths[i] := 9;
    }
    for i := 256 to 280
      invariant forall k :: 0 <= k < 256 ==> lengths[k] == FixedLit()[k]
      invariant forall k :: 256 <= k < i ==> lengths[k] == 7
    {
      lengths[i] := 7;
    }
    for i := 280 to 288
      invariant forall k :: 0 <= k < 280 ==> lengths[k] == FixedLit()[k]
      invariant forall k :: 280 <= k < i ==> lengths[k] == 8
    {
      lengths[i] := 8;
    }
  }

  method FillFive(lengths: array<nat>)
    requires lengths.Length == 288
    modifies lengths
    ensures lengths[..30] == FixedDist()
  {
    for i := 0 to 30
      invariant forall k :: 0 <= k < i ==> lengths[k] == 5
    {
      lengths[i] := 5;
    }
  }

  /** `inf_inflate`. On success `produced` is the new `*out_len`; on failure the
      caller's length is left alone, though a prefix of `dst` has been written. */
  method InflateInto(src: seq<byte>, dst: array<byte>, cap: nat) returns (st: Status, produced: nat)
    requires cap <= dst.Length
    modifies dst
    ensures st == Inflate(src, cap).st
    ensures var out := Inflate(src, cap).out;
            && |out| <= cap && dst[..|out|] == out && dst[cap..] == old(dst[cap..])
            && produced == (if st == Ok then |out| else cap)
  {
    hide ByteBits, InflateFrom;
    var br := new BitReader(src);
    var o := new OutBuf(dst, cap);
    st := Blocks(br, o);
    produced := if st == Ok then o.pos else cap;
    assert o.Contents() == Inflate(src, cap).out;
  }

  /** The switch on the block type. */
  method BlockInto(br: BitReader, o: OutBuf, kind: nat, lit: Huff, dist: Huff) returns (st: Status)
    requires br.Valid() && br.cnt < 8 && o.Valid()
    requires lit.Valid() && lit.ls == FixedLit() && dist.Valid() && dist.ls == FixedDist()
    requires lit.counts as object != o.dst && lit.symbols as object != o.dst
    requires dist.counts as object != o.dst && dist.symbols as object != o.dst
    modifies br, o, o.dst
    ensures br.Valid() && br.cnt < 8 && o.Valid()
    ensures Run(st, br.Cur(), o.Contents())
         == BlockOfKind(ByteBits(br.src), kind, old(br.Cur()), old(o.Contents()), o.cap)
  {
    hide ByteBits, BlockHuffman, BlockStored, BlockDynamic, FixedLit, FixedDist;
    if kind == 0 {
      st := BlockStoredInto(br, o);
    } else if kind == 1 {
      st := BlockHuffmanInto(br, o, lit, dist);
    } else if kind == 2 {
      st := BlockDynamicInto(br, o);
    } else {
      st := ErrFormat;
    }
  }

  method Blocks(br: BitReader, o: OutBuf) returns (st: Status)
    requires br.Valid() && br.cnt < 8 && o.Valid()
    modifies br, o, o.dst
    ensures br.Valid() && br.cnt < 8 && o.Valid()
    ensures Run(st, br.Cur(), o.Contents())
         == InflateFrom(ByteBits(br.src), old(br.Cur()), old(o.Contents()), o.cap)
  {
    hide ByteBits, BlockOfKind, FixedLit, FixedDist, GetBits, Huff.Valid, OutBuf.Valid, BitReader.Valid;
    ghost var bits := ByteBits(br.src);
    ghost var target := InflateFrom(bits, br.Cur(), o.Contents(), o.cap);
    var lit := new Huff();
    var dist := new Huff();
    BuildFixed(lit, dist);
    while true
      invariant br.Valid() && br.cnt < 8 && o.Valid()
      invariant lit.Valid() && lit.ls == FixedLit() && dist.Valid() && dist.ls == FixedDist()
      invariant target == InflateFrom(bits, br.Cur(), o.Contents(), o.cap)
      decreases |bits| - br.Cur().p
    {
      var final := br.ReadBit();
      var kind := br.ReadBits(2);
      if br.overrun {
        return ErrInput;
      }
      st := BlockInto(br, o, kind, lit, dist);
      if st != Ok {
        return st;
      }
      if br.overrun {
        return ErrInput;
      }
      if final {
        return Ok;
      }
    }
  }
}
