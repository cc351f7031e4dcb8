/** Bytes as a stream of bits, least significant bit of each byte first, and the
    reader that inflate.c pulls them through. */
module Bits {

  type byte = x: int | 0 <= x < 256

  function Num(b: bool): (r: nat)
    ensures r < 2
  {
    if b then 1 else 0
  }

  function Pow2(n: nat): (r: nat)
    ensures r > 0
  {
    if n == 0 then 1 else 2 * Pow2(n - 1)
  }

  /** `n >> k`. */
  function Shr(n: nat, k: nat): (r: nat)
    ensures r <= n
  {
    if k == 0 then n else Shr(n / 2, k - 1)
  }

  lemma {:induction false} ShrStep(n: nat, k: nat)
    ensures Shr(n, k + 1) == Shr(n, k) / 2
  {
    if k > 0 {
      ShrStep(n / 2, k - 1);
    }
  }

  /** `n` low bits of `v`, least significant first: how DEFLATE packs ordinary values. */
  function BitsOf(v: nat, n: nat): (r: seq<bool>)
    ensures |r| == n
  {
    if n == 0 then [] else [v % 2 == 1] + BitsOf(v / 2, n - 1)
  }

  /** The bits of whole bytes. */
  function ByteBits(s: seq<byte>): (r: seq<bool>)
    ensures |r| == 8 * |s|
  {
    if s == [] then [] else BitsOf(s[0], 8) + ByteBits(s[1..])
  }

  /** The stream `s` holds `bits` starting at position `p`. */
  ghost predicate At(s: seq<bool>, p: nat, bits: seq<bool>) {
    p + |bits| <= |s| && forall i :: 0 <= i < |bits| ==> s[p + i] == bits[i]
  }

  lemma AtNone(s: seq<bool>, p: nat)
    requires p <= |s|
    ensures At(s, p, [])
  {
  }

  lemma AtUnique(s: seq<bool>, p: nat, a: seq<bool>, b: seq<bool>)
    requires |a| == |b| && At(s, p, a) && At(s, p, b)
    ensures a == b
  {
    forall i | 0 <= i < |a| ensures a[i] == b[i] {
      assert s[p + i] == a[i];
    }
  }

  lemma AtConcat(s: seq<bool>, p: nat, a: seq<bool>, b: seq<bool>)
    ensures At(s, p, a + b) <==> At(s, p, a) && At(s, p + |a|, b)
  {
    var ab := a + b;
    if At(s, p, ab) {
      forall i | 0 <= i < |b| ensures s[p + |a| + i] == b[i] {
        assert ab[|a| + i] == b[i];
      }
      forall i | 0 <= i < |a| ensures s[p + i] == a[i] {
        assert ab[i] == a[i];
      }
    }
  }

  lemma AtCons(s: seq<bool>, p: nat, b: bool, bits: seq<bool>)
    ensures At(s, p, [b] + bits) <==> p < |s| && s[p] == b && At(s, p + 1, bits)
  {
    AtConcat(s, p, [b], bits);
    if At(s, p, [b]) {
      assert s[p + 0] == [b][0];
    }
  }

  /** `n` low bits of `code`, most significant first: how DEFLATE packs Huffman codes. */
  function CodeBits(code: nat, n: nat): (r: seq<bool>)
    ensures |r| == n
  {
    if n == 0 then [] else CodeBits(code / 2, n - 1) + [code % 2 == 1]
  }

  /** Where a reader stands: the next bit, and whether it has run off the end. */
  datatype Cursor = Cursor(p: nat, overrun: bool)

  function GetBit(s: seq<bool>, c: Cursor): (r: (bool, Cursor))
    ensures c.p <= r.1.p
    ensures c.p <= |s| ==> r.1.p <= |s|
    ensures c.overrun ==> r.1.overrun
    ensures !r.1.overrun ==> r.1.p == c.p + 1 <= |s|
  {
    if c.p < |s| then (s[c.p], Cursor(c.p + 1, c.overrun))
    else (false, Cursor(c.p, true))
  }

  function GetBits(s: seq<bool>, n: nat, c: Cursor): (r: (nat, Cursor))
    ensures c.p <= r.1.p
    ensures c.p <= |s| ==> r.1.p <= |s|
    ensures c.overrun ==> r.1.overrun
    ensures !r.1.overrun ==> r.1.p == c.p + n
    ensures r.0 < Pow2(n)
  {
    if n == 0 then (0, c) else
      var (b, c1) := GetBit(s, c);
      var (v, c2) := GetBits(s, n - 1, c1);
      (Num(b) + 2 * v, c2)
  }

  /** Reading back what `BitsOf` wrote. */
  lemma {:induction false} GetBitsReads(s: seq<bool>, n: nat, c: Cursor, v: nat)
    requires v < Pow2(n)
    requires At(s, c.p, BitsOf(v, n))
    ensures GetBits(s, n, c) == (v, Cursor(c.p + n, c.overrun))
  {
    if n > 0 {
      AtCons(s, c.p, v % 2 == 1, BitsOf(v / 2, n - 1));
      GetBitsReads(s, n - 1, Cursor(c.p + 1, c.overrun), v / 2);
    }
  }

  /** Whatever is read without an overrun is what the stream holds. */
  lemma {:induction false} GetBitsSound(s: seq<bool>, n: nat, c: Cursor)
    requires !GetBits(s, n, c).1.overrun
    requires c.p <= |s|
    ensures At(s, c.p, BitsOf(GetBits(s, n, c).0, n))
  {
    hide At;
    if n == 0 {
      AtNone(s, c.p);
    } else {
      var (b, c1) := GetBit(s, c);
      var (v, c2) := GetBits(s, n - 1, c1);
      GetBitsSound(s, n - 1, c1);
      var w := Num(b) + 2 * v;
      assert w % 2 == Num(b) && w / 2 == v;
      AtCons(s, c.p, b, BitsOf(v, n - 1));
    }
  }

  lemma {:induction false} BitsOfIndex(v: nat, n: nat, k: nat)
    requires k < n
    ensures BitsOf(v, n)[k] == (Shr(v, k) % 2 == 1)
  {
    if k > 0 {
      BitsOfIndex(v / 2, n - 1, k - 1);
    }
  }

  /** Eight bits determine a byte. */
  lemma BitsOfByteInjective(a: byte, b: byte)
    requires BitsOf(a, 8) == BitsOf(b, 8)
    ensures a == b
  {
    BitsOfValue(a, 8);
    BitsOfValue(b, 8);
    assert Pow2(8) == 256 by { Pow2Values(); }
  }

  lemma Pow2Values()
    ensures Pow2(1) == 2 && Pow2(2) == 4 && Pow2(3) == 8 && Pow2(4) == 16 && Pow2(5) == 32
    ensures Pow2(7) == 128 && Pow2(8) == 256 && Pow2(15) == 0x8000 && Pow2(16) == 0x10000
  {
    assert Pow2(4) == 16;
    assert Pow2(8) == 256;
    assert Pow2(12) == 4096;
    assert Pow2(16) == 0x10000;
  }

  function Value(bits: seq<bool>): nat {
    if bits == [] then 0 else Num(bits[0]) + 2 * Value(bits[1..])
  }

  lemma {:induction false} BitsOfValue(v: nat, n: nat)
    requires v < Pow2(n)
    ensures Value(BitsOf(v, n)) == v
  {
    if n > 0 {
      BitsOfValue(v / 2, n - 1);
      assert BitsOf(v, n)[1..] == BitsOf(v / 2, n - 1);
    }
  }

  lemma {:induction false} ByteBitsIndex(src: seq<byte>, q: nat, k: nat)
    requires q < |src| && k < 8
    ensures ByteBits(src)[8 * q + k] == (Shr(src[q], k) % 2 == 1)
  {
    if q == 0 {
      BitsOfIndex(src[0], 8, k);
    } else {
      ByteBitsIndex(src[1..], q - 1, k);
    }
  }

  lemma {:induction false} ByteBitsSlice(src: seq<byte>, q: nat, n: nat)
    requires q + n <= |src|
    ensures At(ByteBits(src), 8 * q, ByteBits(src[q..q + n]))
  {
    hide ByteBits, Shr;
    var s := src[q..q + n];
    forall i | 0 <= i < 8 * n ensures ByteBits(src)[8 * q + i] == ByteBits(s)[i] {
      ByteBitsIndex(src, q + i / 8, i % 8);
      ByteBitsIndex(s, i / 8, i % 8);
    }
  }

  lemma {:induction false} ByteBitsInjective(a: seq<byte>, b: seq<byte>)
    requires ByteBits(a) == ByteBits(b)
    ensures a == b
  {
    if a != [] {
      assert ByteBits(a)[..8] == BitsOf(a[0], 8) && ByteBits(a)[8..] == ByteBits(a[1..]);
      assert ByteBits(b)[..8] == BitsOf(b[0], 8) && ByteBits(b)[8..] == ByteBits(b[1..]);
      BitsOfByteInjective(a[0], b[0]);
      ByteBitsInjective(a[1..], b[1..]);
    }
  }

  /** Byte-aligned bits are the bytes themselves. */
  lemma AtBytes(src: seq<byte>, q: nat, t: seq<byte>)
    requires q + |t| <= |src|
    ensures At(ByteBits(src), 8 * q, ByteBits(t)) <==> src[q..q + |t|] == t
  {
    hide ByteBits, At;
    var u := src[q..q + |t|];
    ByteBitsSlice(src, q, |t|);
    if At(ByteBits(src), 8 * q, ByteBits(t)) {
      AtUnique(ByteBits(src), 8 * q, ByteBits(u), ByteBits(t));
      ByteBitsInjective(u, t);
    }
  }

  /** Packs a stream into bytes, zero-padding the last one. */
  function Pack(bits: seq<bool>): (r: seq<byte>)
    ensures |r| == (|bits| + 7) / 8
    decreases |bits|
  {
    if bits == [] then []
    else if |bits| <= 8 then [PackByte(bits, 8)]
    else [PackByte(bits, 8)] + Pack(bits[8..])
  }

  function PackByte(bits: seq<bool>, n: nat): (r: nat)
    ensures r < Pow2(n)
    ensures n == 8 ==> r < 256
  {
    Pow2Values();
    if n == 0 || bits == [] then 0 else Num(bits[0]) + 2 * PackByte(bits[1..], n - 1)
  }

  lemma {:induction false} PackByteBit(bits: seq<bool>, n: nat, k: nat)
    requires k < n && k < |bits|
    ensures Shr(PackByte(bits, n), k) % 2 == Num(bits[k])
  {
    if k > 0 {
      PackByteBit(bits[1..], n - 1, k - 1);
    }
  }

  lemma {:induction false} PackBit(bits: seq<bool>, i: nat)
    requires i < |bits|
    ensures ByteBits(Pack(bits))[i] == bits[i]
    decreases i
  {
    var r := Pack(bits);
    ByteBitsIndex(r, i / 8, i % 8);
    if i < 8 {
      PackByteBit(bits, 8, i);
    } else {
      PackBit(bits[8..], i - 8);
      ByteBitsIndex(Pack(bits[8..]), (i - 8) / 8, (i - 8) % 8);
    }
  }

  lemma PackHolds(bits: seq<bool>)
    ensures At(ByteBits(Pack(bits)), 0, bits)
  {
    forall i | 0 <= i < |bits| ensures ByteBits(Pack(bits))[i] == bits[i] {
      PackBit(bits, i);
    }
  }

  /** `v | high << i` for `v` below `1 << i`. */
  function Shifted(v: nat, i: nat, high: nat): nat {
    v + Pow2(i) * high
  }

  lemma ShiftedEnds(v: nat)
    ensures Shifted(0, 0, v) == v
    ensures forall i: nat :: Shifted(v, i, 0) == v
  {
  }

  lemma ShiftedStep(v: nat, i: nat, b: bool, high: nat)
    ensures Shifted(v, i, Num(b) + 2 * high) == Shifted(v + Num(b) * Pow2(i), i + 1, high)
  {
    var s := Pow2(i);
    assert s * (Num(b) + 2 * high) == s * Num(b) + (2 * s) * high;
  }

  /** `bitreader`. The bits still buffered are the top `cnt` of the last byte fetched. */
  class BitReader {
    const src: seq<byte>
    var pos: nat
    var buf: nat
    var cnt: nat
    var overrun: bool

    ghost predicate Valid()
      reads this
    {
      && pos <= |src|
      && cnt <= 8
      && (cnt > 0 ==> pos > 0 && buf == Shr(src[pos - 1], 8 - cnt))
    }

    ghost function Cur(): (r: Cursor)
      reads this
      requires Valid()
      ensures r.p <= 8 * |src|
    {
      Cursor(8 * pos - cnt, overrun)
    }

    constructor (source: seq<byte>)
      ensures Valid() && src == source && Cur() == Cursor(0, false) && cnt < 8
    {
      src := source;
      pos, buf, cnt, overrun := 0, 0, 0, false;
    }

    method ReadBit() returns (b: bool)
      requires Valid()
      modifies this
      ensures Valid() && cnt < 8
      ensures (b, Cur()) == GetBit(ByteBits(src), old(Cur()))
    {
      if cnt == 0 {
        if pos >= |src| {
          overrun := true;
          return false;
        }
        buf := src[pos];
        pos := pos + 1;
        cnt := 8;
      }
      ghost var k := 8 - cnt;
      assert 8 * pos - cnt == 8 * (pos - 1) + k;
      ShrStep(src[pos - 1], k);
      ByteBitsIndex(src, pos - 1, k);
      b := buf % 2 == 1;
      buf := buf / 2;
      cnt := cnt - 1;
    }

    method ReadBits(n: nat) returns (v: nat)
      requires Valid() && cnt < 8
      modifies this
      ensures Valid() && cnt < 8
      ensures (v, Cur()) == GetBits(ByteBits(src), n, old(Cur()))
    {
      hide ByteBits, Pow2, Shifted, GetBit;
      v := 0;
      ShiftedEnds(GetBits(ByteBits(src), n, Cur()).0);
      ghost var all := GetBits(ByteBits(src), n, Cur());
      for i := 0 to n
        invariant Valid() && cnt < 8
        invariant all.0 == Shifted(v, i, GetBits(ByteBits(src), n - i, Cur()).0)
        invariant all.1 == GetBits(ByteBits(src), n - i, Cur()).1
      {
        ghost var was := v;
        var b := ReadBit();
        v := v + Num(b) * Pow2(i);
        ShiftedStep(was, i, b, GetBits(ByteBits(src), n - i - 1, Cur()).0);
      }
      ShiftedEnds(v);
    }

    /** The byte alignment at the start of a stored block. */
    method Align()
      requires Valid() && cnt < 8
      modifies this
      ensures Valid() && cnt == 0 && overrun == old(overrun)
      ensures pos == (old(Cur().p) + 7) / 8
    {
      cnt := 0;
      buf := 0;
    }
  }
}
