/** Canonical Huffman codes (RFC 1951 section 3.2.2): the code a length vector
    defines, and the table-free decoder of inflate.c that walks it. */
module Huffman {
  import opened Bits

  const MAX_BITS: nat := 15

  type Lengths = ls: seq<nat> | forall i :: 0 <= i < |ls| ==> ls[i] <= 15

  /** How many of the first `n` symbols have length `l`. */
  function CountTo(ls: Lengths, l: nat, n: nat): (r: nat)
    requires n <= |ls|
    ensures r <= n
    decreases ls, n
  {
    if n == 0 then 0 else CountTo(ls, l, n - 1) + if ls[n - 1] == l then 1 else 0
  }

  function Count(ls: Lengths, l: nat): (r: nat)
    ensures r <= |ls|
  {
    CountTo(ls, l, |ls|)
  }

  /** Code space the first `n` symbols occupy, in units of one `l`-bit code. */
  function Space(ls: Lengths, n: nat, l: nat): nat
    requires n <= |ls|
    decreases ls, l
  {
    if l == 0 then 0 else 2 * Space(ls, n, l - 1) + CountTo(ls, l, n)
  }

  lemma SpaceStep(ls: Lengths, n: nat, l: nat)
    requires n <= |ls|
    ensures Space(ls, n, l) == if l == 0 then 0 else 2 * Space(ls, n, l - 1) + CountTo(ls, l, n)
  {
  }

  /** `next_code[l]`: the first code of length `l`. */
  function First(ls: Lengths, l: nat): nat
    requires l >= 1
  {
    2 * Space(ls, |ls|, l - 1)
  }

  lemma FirstStep(ls: Lengths, l: nat)
    requires l >= 1
    ensures First(ls, 1) == 0
    ensures First(ls, l + 1) == 2 * (First(ls, l) + Count(ls, l)) == 2 * Space(ls, |ls|, l)
  {
  }

  /** The code RFC 1951 section 3.2.2 assigns to a used symbol. */
  function Code(ls: Lengths, s: nat): nat
    requires s < |ls| && ls[s] > 0
  {
    First(ls, ls[s]) + CountTo(ls, ls[s], s)
  }

  function SymbolBits(ls: Lengths, s: nat): (r: seq<bool>)
    requires s < |ls| && ls[s] > 0
    ensures |r| == ls[s]
  {
    CodeBits(Code(ls, s), ls[s])
  }

  /** How many used symbols among the first `n` are shorter than `l`. */
  function OffsetTo(ls: Lengths, n: nat, l: nat): nat
    requires n <= |ls| && l >= 1
    decreases ls, l
  {
    if l == 1 then 0 else OffsetTo(ls, n, l - 1) + CountTo(ls, l - 1, n)
  }

  function Offset(ls: Lengths, l: nat): nat
    requires l >= 1
  {
    OffsetTo(ls, |ls|, l)
  }

  lemma OffsetStep(ls: Lengths, l: nat)
    requires l >= 1
    ensures Offset(ls, 1) == 0
    ensures Offset(ls, l + 1) == Offset(ls, l) + Count(ls, l)
  {
  }

  /** A used symbol's place in the table ordered by (length, symbol). */
  function Rank(ls: Lengths, s: nat): nat
    requires s < |ls| && ls[s] > 0
  {
    Offset(ls, ls[s]) + CountTo(ls, ls[s], s)
  }

  /** The `k`-th symbol of length `l` among the first `n`. */
  function Nth(ls: Lengths, l: nat, k: nat, n: nat): (s: nat)
    requires n <= |ls| && k < CountTo(ls, l, n)
    ensures s < n && ls[s] == l && CountTo(ls, l, s) == k
    decreases ls, n
  {
    if k == CountTo(ls, l, n - 1) then n - 1 else Nth(ls, l, k, n - 1)
  }

  // ----- acceptance and the Kraft inequality

  /** What the over-subscription loop of huff_build lets through. */
  predicate Accepts(ls: Lengths) {
    forall l: nat :: 1 <= l <= 15 ==> Space(ls, |ls|, l) <= Pow2(l)
  }

  /** Sum of 2^(15-length) over the used symbols among the first `n`. */
  function KraftSum(ls: Lengths, n: nat): nat
    requires n <= |ls|
    decreases ls, n
  {
    if n == 0 then 0
    else KraftSum(ls, n - 1) + if ls[n - 1] == 0 then 0 else Pow2(15 - ls[n - 1])
  }

  lemma {:induction false} SpaceOfNone(ls: Lengths, l: nat)
    ensures Space(ls, 0, l) == 0
  {
    if l > 0 {
      SpaceOfNone(ls, l - 1);
    }
  }

  lemma {:induction false} SpaceAddsSymbol(ls: Lengths, n: nat, l: nat)
    requires n < |ls|
    ensures Space(ls, n + 1, l) == Space(ls, n, l) + if 0 < ls[n] <= l then Pow2(l - ls[n]) else 0
    decreases ls, l
  {
    if l > 0 {
      SpaceAddsSymbol(ls, n, l - 1);
    }
  }

  lemma {:induction false} SpaceIsKraftSum(ls: Lengths, n: nat, m: nat)
    requires n <= |ls| && m == 15
    ensures Space(ls, n, m) == KraftSum(ls, n)
    decreases ls, n
  {
    if n == 0 {
      SpaceOfNone(ls, m);
    } else {
      SpaceIsKraftSum(ls, n - 1, m);
      SpaceAddsSymbol(ls, n - 1, m);
    }
  }

  lemma {:induction false} OversubscriptionPersists(ls: Lengths, l: nat, m: nat)
    requires l <= m && Space(ls, |ls|, l) > Pow2(l)
    ensures Space(ls, |ls|, m) > Pow2(m)
    decreases m
  {
    if l < m {
      OversubscriptionPersists(ls, l, m - 1);
    }
  }

  /** A length vector is accepted exactly when it satisfies the Kraft inequality. */
  lemma AcceptsIffKraft(ls: Lengths)
    ensures Accepts(ls) <==> KraftSum(ls, |ls|) <= Pow2(15)
  {
    SpaceIsKraftSum(ls, |ls|, 15);
    if !Accepts(ls) {
      var l: nat :| 1 <= l <= 15 && Space(ls, |ls|, l) > Pow2(l);
      OversubscriptionPersists(ls, l, 15);
    }
  }

  // ----- the symbol table is the stable counting-sort order

  lemma {:induction false} CountToMonotone(ls: Lengths, l: nat, m: nat, n: nat)
    requires m <= n <= |ls|
    ensures CountTo(ls, l, m) <= CountTo(ls, l, n)
    ensures m < n && ls[m] == l ==> CountTo(ls, l, m) < CountTo(ls, l, n)
    decreases ls, n
  {
    if m < n {
      CountToMonotone(ls, l, m, n - 1);
    }
  }

  lemma {:induction false} OffsetMonotone(ls: Lengths, l: nat, m: nat)
    requires 1 <= l <= m
    ensures Offset(ls, l) <= Offset(ls, m)
    ensures l < m ==> Offset(ls, l) + Count(ls, l) <= Offset(ls, m)
    decreases m
  {
    if l < m {
      OffsetMonotone(ls, l, m - 1);
    }
  }

  lemma {:induction false} OffsetAddsSymbol(ls: Lengths, n: nat, l: nat)
    requires n < |ls| && l >= 1
    ensures OffsetTo(ls, n + 1, l) == OffsetTo(ls, n, l) + if 0 < ls[n] < l then 1 else 0
    decreases ls, l
  {
    if l > 1 {
      OffsetAddsSymbol(ls, n, l - 1);
    }
  }

  lemma {:induction false} OffsetBound(ls: Lengths, n: nat, l: nat)
    requires n <= |ls| && l >= 1
    ensures OffsetTo(ls, n, l) <= n
    decreases ls, n
  {
    if n > 0 {
      OffsetBound(ls, n - 1, l);
      OffsetAddsSymbol(ls, n - 1, l);
    } else {
      OffsetOfNone(ls, l);
    }
  }

  lemma {:induction false} OffsetOfNone(ls: Lengths, l: nat)
    requires l >= 1
    ensures OffsetTo(ls, 0, l) == 0
    decreases ls, l
  {
    if l > 1 {
      OffsetOfNone(ls, l - 1);
    }
  }

  lemma RankInRange(ls: Lengths, s: nat)
    requires s < |ls| && ls[s] > 0
    ensures Rank(ls, s) < Offset(ls, ls[s]) + Count(ls, ls[s]) <= Offset(ls, 16) <= |ls|
  {
    CountToMonotone(ls, ls[s], s, |ls|);
    OffsetMonotone(ls, ls[s], 16);
    OffsetBound(ls, |ls|, 16);
  }

  /** Ranks order symbols by length first and by symbol value within a length. */
  lemma RankIsStableOrder(ls: Lengths, s: nat, t: nat)
    requires s < |ls| && t < |ls| && ls[s] > 0 && ls[t] > 0
    requires ls[s] < ls[t] || (ls[s] == ls[t] && s < t)
    ensures Rank(ls, s) < Rank(ls, t)
  {
    RankInRange(ls, s);
    if ls[s] < ls[t] {
      OffsetMonotone(ls, ls[s], ls[t]);
    } else {
      CountToMonotone(ls, ls[s], s, t);
    }
  }

  // ----- decoding

  /** The decoder's state after `len - 1` bits, whose value is `code`. */
  function DecodeFrom(bs: seq<bool>, c: Cursor, ls: Lengths, len: nat, code: nat): (r: (int, Cursor))
    requires 1 <= len <= 16
    requires 2 * code >= First(ls, len)
    ensures c.p <= r.1.p
    ensures c.p <= |bs| ==> r.1.p <= |bs|
    ensures c.overrun ==> r.1.overrun
    ensures len <= 15 && !r.1.overrun ==> r.1.p > c.p
    ensures -1 <= r.0 < |ls|
    decreases bs, 16 - len
  {
    if len > MAX_BITS then (-1, c) else
      var (b, c1) := GetBit(bs, c);
      var code' := 2 * code + Num(b);
      var k := code' - First(ls, len);
      if k < Count(ls, len) then (Nth(ls, len, k, |ls|), c1)
      else DecodeFrom(bs, c1, ls, len + 1, code')
  }

  /** One bit of decoding: the symbol whose code is complete, or the next bit. */
  lemma DecodeStep(bs: seq<bool>, c: Cursor, ls: Lengths, len: nat, code: nat)
    requires 1 <= len <= 15 && 2 * code >= First(ls, len)
    ensures var (b, c1) := GetBit(bs, c);
            var code' := 2 * code + Num(b);
            var k := code' - First(ls, len);
            DecodeFrom(bs, c, ls, len, code) ==
            if k < Count(ls, len) then (Nth(ls, len, k, |ls|), c1) else DecodeFrom(bs, c1, ls, len + 1, code')
  {
  }

  lemma DecodeEnds(bs: seq<bool>, c: Cursor, ls: Lengths, code: nat)
    requires 2 * code >= First(ls, 16)
    ensures DecodeFrom(bs, c, ls, 16, code) == (-1, c)
  {
  }

  function Decode(bs: seq<bool>, c: Cursor, ls: Lengths): (r: (int, Cursor))
    ensures c.p <= r.1.p
    ensures c.p <= |bs| ==> r.1.p <= |bs|
    ensures c.overrun ==> r.1.overrun
    ensures !r.1.overrun ==> r.1.p > c.p
    ensures -1 <= r.0 < |ls|
  {
    DecodeFrom(bs, c, ls, 1, 0)
  }

  /** A code fits in its length: the decoder's bits lose nothing. */
  lemma CodeFits(ls: Lengths, s: nat)
    requires Accepts(ls) && s < |ls| && ls[s] > 0
    ensures Code(ls, s) < Space(ls, |ls|, ls[s]) <= Pow2(ls[s])
  {
    CountToMonotone(ls, ls[s], s, |ls|);
  }

  /** The first `len` bits of a longer code lie past every `len`-bit code. */
  lemma {:induction false} PrefixPastCodes(ls: Lengths, code: nat, len: nat, more: nat)
    requires more > 0 && code >= First(ls, len + more)
    ensures Shr(code, more) >= Space(ls, |ls|, len)
    decreases more
  {
    if more > 1 {
      PrefixPastCodes(ls, code / 2, len, more - 1);
    } else {
      assert Shr(code, 1) == Shr(code / 2, 0);
    }
  }

  /** Value of the first `len` of the `total` bits of `code`. */
  lemma {:induction false} CodeBitsSplit(code: nat, a: nat, b: nat)
    ensures CodeBits(code, a + b) == CodeBits(Shr(code, b), a) + CodeBits(code, b)
    decreases b
  {
    if b > 0 {
      CodeBitsSplit(code / 2, a, b - 1);
      assert CodeBits(code, a + b) == CodeBits(code / 2, a + b - 1) + [code % 2 == 1];
    } else {
      assert CodeBits(Shr(code, 0), a) + [] == CodeBits(code, a);
    }
  }

  lemma NextCodeBit(bs: seq<bool>, p: nat, code: nat, more: nat)
    requires At(bs, p, CodeBits(code, more + 1))
    ensures p < |bs| && bs[p] == (Shr(code, more) % 2 == 1)
    ensures Shr(code, more + 1) == Shr(code, more) / 2
    ensures At(bs, p + 1, CodeBits(code, more))
  {
    CodeBitsSplit(code, 1, more);
    ShrStep(code, more);
    var next := Shr(code, more);
    assert CodeBits(next, 1) == [next % 2 == 1] by { assert CodeBits(next / 2, 0) == []; }
    AtCons(bs, p, next % 2 == 1, CodeBits(code, more));
  }

  lemma {:induction false} DecodeFromReads(bs: seq<bool>, c: Cursor, ls: Lengths, s: nat, len: nat)
    requires s < |ls| && 1 <= len <= ls[s]
    requires 2 * Shr(Code(ls, s), ls[s] + 1 - len) >= First(ls, len)
    requires At(bs, c.p, CodeBits(Code(ls, s), ls[s] + 1 - len))
    ensures DecodeFrom(bs, c, ls, len, Shr(Code(ls, s), ls[s] + 1 - len))
         == (s, Cursor(c.p + (ls[s] + 1 - len), c.overrun))
    decreases ls[s] - len
  {
    hide CodeBits, First, Space, CountTo, DecodeFrom, Nth;
    FirstStep(ls, len);
    DecodeStep(bs, c, ls, len, Shr(Code(ls, s), ls[s] + 1 - len));
    var code, more := Code(ls, s), ls[s] - len;
    NextCodeBit(bs, c.p, code, more);
    var next := Shr(code, more);
    var c1 := Cursor(c.p + 1, c.overrun);
    assert GetBit(bs, c) == (next % 2 == 1, c1);
    if more > 0 {
      PrefixPastCodes(ls, code, len, more);
      DecodeFromReads(bs, c1, ls, s, len + 1);
    } else {
      CountToMonotone(ls, ls[s], s, |ls|);
      NthUnique(ls, ls[s], s, Nth(ls, ls[s], CountTo(ls, ls[s], s), |ls|));
    }
  }

  lemma NthUnique(ls: Lengths, l: nat, s: nat, t: nat)
    requires s < |ls| && t < |ls| && ls[s] == l == ls[t] && CountTo(ls, l, s) == CountTo(ls, l, t)
    ensures s == t
  {
    if s < t {
      CountToMonotone(ls, l, s, t);
    } else if t < s {
      CountToMonotone(ls, l, t, s);
    }
  }

  lemma {:induction false} ShrToZero(n: nat, k: nat)
    requires n < Pow2(k)
    ensures Shr(n, k) == 0
  {
    if k > 0 {
      ShrToZero(n / 2, k - 1);
    }
  }

  /** Feeding a used symbol's code to the decoder yields the symbol after exactly
      its length in bits. */
  lemma DecodeReads(bs: seq<bool>, c: Cursor, ls: Lengths, s: nat)
    requires Accepts(ls) && s < |ls| && ls[s] > 0
    requires At(bs, c.p, SymbolBits(ls, s))
    ensures Decode(bs, c, ls) == (s, Cursor(c.p + ls[s], c.overrun))
  {
    CodeFits(ls, s);
    ShrToZero(Code(ls, s), ls[s]);
    DecodeFromReads(bs, c, ls, s, 1);
  }

  lemma {:induction false} DecodeFromSound(bs: seq<bool>, c: Cursor, ls: Lengths, len: nat, code: nat)
    requires 1 <= len <= 16 && 2 * code >= First(ls, len)
    requires len - 1 <= c.p <= |bs|
    requires At(bs, c.p - (len - 1), CodeBits(code, len - 1))
    ensures var (s, c1) := DecodeFrom(bs, c, ls, len, code);
            s >= 0 && !c1.overrun ==>
              ls[s] > 0 && c1.p == c.p - (len - 1) + ls[s] && At(bs, c.p - (len - 1), SymbolBits(ls, s))
    decreases bs, 16 - len
  {
    hide First, Count, Space, CountTo;
    FirstStep(ls, len);
    if len <= 15 {
      var start := c.p - (len - 1);
      var (b, c1) := GetBit(bs, c);
      var code' := 2 * code + Num(b);
      assert code' / 2 == code && code' % 2 == Num(b);
      if c.p < |bs| {
        AtConcat(bs, start, CodeBits(code, len - 1), [b]);
        AtCons(bs, c.p, b, []);
        assert At(bs, start, CodeBits(code', len));
        if code' - First(ls, len) >= Count(ls, len) {
          DecodeFromSound(bs, c1, ls, len + 1, code');
        }
      }
    }
  }

  /** Any symbol the decoder returns without running off the end was there: the
      bits consumed are exactly that symbol's code. */
  lemma DecodeSound(bs: seq<bool>, c: Cursor, ls: Lengths)
    requires c.p <= |bs|
    ensures var (s, c1) := Decode(bs, c, ls);
            s >= 0 && !c1.overrun ==>
              ls[s] > 0 && c1.p == c.p + ls[s] && At(bs, c.p, SymbolBits(ls, s))
  {
    DecodeFromSound(bs, c, ls, 1, 0);
  }

  /** No used symbol's code is a prefix of another's. */
  lemma PrefixFree(ls: Lengths, s: nat, t: nat)
    requires Accepts(ls) && s < |ls| && t < |ls| && ls[s] > 0 && ls[t] > 0
    requires SymbolBits(ls, s) <= SymbolBits(ls, t)
    ensures s == t
  {
    var bs := SymbolBits(ls, t);
    AtConcat(bs, 0, SymbolBits(ls, s), SymbolBits(ls, t)[ls[s]..]);
    assert SymbolBits(ls, s) + SymbolBits(ls, t)[ls[s]..] == SymbolBits(ls, t);
    DecodeReads(bs, Cursor(0, false), ls, s);
    DecodeReads(bs, Cursor(0, false), ls, t);
  }

  // ----- huff_build and huff_decode

  class Huff {
    const counts: array<nat>
    const symbols: array<nat>
    ghost var ls: Lengths

    /** The tables describe the accepted length vector `ls`. */
    ghost predicate Valid()
      reads this, counts, symbols
    {
      && counts.Length == 16 && symbols.Length == 288 && |ls| <= 288
      && Accepts(ls)
      && (forall l: nat :: 1 <= l <= 15 ==> counts[l] == Count(ls, l))
      && (forall s: nat :: s < |ls| && ls[s] > 0 ==> Rank(ls, s) < 288 && symbols[Rank(ls, s)] == s)
    }

    constructor ()
      ensures counts.Length == 16 && symbols.Length == 288 && fresh(counts) && fresh(symbols)
    {
      counts := new nat[16](i => 0);
      symbols := new nat[288](i => 0);
      ls := [];
    }

    method CountLengths(lengths: Lengths)
      requires counts.Length == 16
      modifies counts
      ensures forall l: nat :: 1 <= l <= 15 ==> counts[l] == Count(lengths, l)
    {
      for l := 0 to 16
        invariant forall m :: 0 <= m < l ==> counts[m] == 0
      {
        counts[l] := 0;
      }
      for i := 0 to |lengths|
        invariant forall l: nat :: l < 16 ==> counts[l] == CountTo(lengths, l, i)
      {
        counts[lengths[i]] := counts[lengths[i]] + 1;
      }
      counts[0] := 0;
    }

    /** `left` ends as the unused code space, in units of 15-bit codes. */
    method CheckSpace(ghost lengths: Lengths) returns (ok: bool, left: int)
      requires counts.Length == 16
      requires forall l: nat :: 1 <= l <= 15 ==> counts[l] == Count(lengths, l)
      ensures ok <==> Accepts(lengths)
      ensures ok ==> left == Pow2(15) - Space(lengths, |lengths|, 15)
    {
      left := 1;
      for len := 1 to 16
        invariant left == Pow2(len - 1) - Space(lengths, |lengths|, len - 1)
        invariant forall l: nat :: 1 <= l < len ==> Space(lengths, |lengths|, l) <= Pow2(l)
      {
        left := 2 * left;
        left := left - counts[len];
        if left < 0 {
          assert Space(lengths, |lengths|, len) > Pow2(len);
          return false, left;
        }
      }
      ok := true;
    }

    method FillSymbols(lengths: Lengths)
      requires counts.Length == 16 && symbols.Length == 288 && |lengths| <= 288
      requires forall l: nat :: 1 <= l <= 15 ==> counts[l] == Count(lengths, l)
      modifies symbols
      ensures forall s: nat :: s < |lengths| && lengths[s] > 0 ==>
                Rank(lengths, s) < 288 && symbols[Rank(lengths, s)] == s
    {
      hide OffsetTo, Space, First, CountTo;
      OffsetStep(lengths, 1);
      CountsStep(lengths, 0);
      var offs := new nat[17](i => 0);
      for len := 1 to 16
        invariant forall l: nat :: 1 <= l <= len ==> offs[l] == Offset(lengths, l)
      {
        OffsetStep(lengths, len);
        offs[len + 1] := offs[len] + counts[len];
      }
      for i := 0 to |lengths|
        invariant forall l: nat :: 1 <= l <= 15 ==> offs[l] == Offset(lengths, l) + CountTo(lengths, l, i)
        invariant forall s: nat :: s < i && lengths[s] > 0 ==>
                    Rank(lengths, s) < 288 && symbols[Rank(lengths, s)] == s
      {
        CountsStep(lengths, i);
        if lengths[i] > 0 {
          RankInRange(lengths, i);
          forall s: nat | s < i && lengths[s] > 0 ensures Rank(lengths, s) != Rank(lengths, i) {
            RanksDiffer(lengths, s, i);
          }
          symbols[offs[lengths[i]]] := i;
          offs[lengths[i]] := offs[lengths[i]] + 1;
        }
      }
    }

    /** `huff_build`: refuses exactly the over-subscribed vectors. */
    method Build(lengths: Lengths) returns (ok: bool)
      requires counts.Length == 16 && symbols.Length == 288 && |lengths| <= 288
      modifies this, counts, symbols
      ensures ok <==> KraftSum(lengths, |lengths|) <= Pow2(15)
      ensures ok ==> Valid() && ls == lengths
    {
      AcceptsIffKraft(lengths);
      CountLengths(lengths);
      var left;
      ok, left := CheckSpace(lengths);
      if ok {
        FillSymbols(lengths);
        ls := lengths;
      }
    }

    lemma CountAt(len: nat)
      requires Valid() && 1 <= len <= 15
      ensures counts.Length == 16 && symbols.Length == 288 && counts[len] == Count(ls, len)
    {
    }

    lemma SymbolAt(len: nat, k: nat)
      requires Valid() && 1 <= len <= 15 && k < Count(ls, len)
      ensures symbols.Length == 288 && Offset(ls, len) + k < 288
      ensures symbols[Offset(ls, len) + k] == Nth(ls, len, k, |ls|)
    {
      assert Rank(ls, Nth(ls, len, k, |ls|)) == Offset(ls, len) + k;
    }

    /** `huff_decode`. */
    method DecodeSymbol(br: BitReader) returns (sym: int)
      requires Valid() && br.Valid() && br.cnt < 8
      modifies br
      ensures br.Valid() && br.cnt < 8
      ensures (sym, br.Cur()) == Decode(ByteBits(br.src), old(br.Cur()), ls)
    {
      hide ByteBits, First, Space, Offset, CountTo, Valid, BitReader.Valid, DecodeFrom, Nth;
      FirstStep(ls, 1);
      OffsetStep(ls, 1);
      var code: int, first: int, index: int := 0, 0, 0;
      ghost var was: nat := 0;
      ghost var bits := ByteBits(br.src);
      ghost var target := Decode(bits, br.Cur(), ls);
      for len := 1 to 16
        invariant Valid() && br.Valid() && br.cnt < 8
        invariant code == 2 * was && first == First(ls, len) && code >= first && index == Offset(ls, len)
        invariant target == DecodeFrom(bits, br.Cur(), ls, len, was)
      {
        FirstStep(ls, len);
        OffsetStep(ls, len);
        DecodeStep(bits, br.Cur(), ls, len, was);
        var b := br.ReadBit();
        code := code + Num(b);
        CountAt(len);
        var count := counts[len];
        if code - first < count {
          SymbolAt(len, code - first);
          sym := symbols[index + (code - first)];
          return;
        }
        was := code;
        index := index + count;
        first := 2 * (first + count);
        code := 2 * code;
      }
      DecodeEnds(bits, br.Cur(), ls, was);
      sym := -1;
    }
  }

  lemma CountsStep(ls: Lengths, i: nat)
    ensures forall l: nat :: CountTo(ls, l, 0) == 0
    ensures i < |ls| ==> forall l: nat :: CountTo(ls, l, i + 1) == CountTo(ls, l, i) + if ls[i] == l then 1 else 0
  {
  }

  lemma RanksDiffer(ls: Lengths, s: nat, t: nat)
    requires s < t < |ls| && ls[s] > 0 && ls[t] > 0
    ensures Rank(ls, s) != Rank(ls, t)
  {
    if ls[s] <= ls[t] {
      RankIsStableOrder(ls, s, t);
    } else {
      RankIsStableOrder(ls, t, s);
    }
  }
}
