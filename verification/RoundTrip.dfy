/** Decoding inverts encoding: whatever stream the encoder may produce for a list of
    blocks, inflate.c returns the bytes the blocks stand for. */
module RoundTrip {
  import opened Bits
  import opened Huffman
  import opened Deflate
  import opened Encoder

  // ----- tokens

  lemma MatchReads(bs: seq<bool>, c: Cursor, t: Token, lit: Lengths, dist: Lengths)
    requires t.Match? && Encodable(t, lit, dist) && Accepts(dist) && !c.overrun && c.p <= |bs|
    requires At(bs, c.p, BitsOf(t.le, LenExtra(t.ls)) + (SymbolBits(dist, t.ds) + BitsOf(t.de, DistExtra(t.ds))))
    ensures ReadMatch(bs, c, t.ls, dist)
         == (Tok(t), Cursor(c.p + LenExtra(t.ls) + dist[t.ds] + DistExtra(t.ds), false))
  {
    hide LenExtra, DistExtra, Accepts, Decode, SymbolBits, GetBits, Pow2;
    AtConcat(bs, c.p, BitsOf(t.le, LenExtra(t.ls)), SymbolBits(dist, t.ds) + BitsOf(t.de, DistExtra(t.ds)));
    GetBitsReads(bs, LenExtra(t.ls), c, t.le);
    var c1 := Cursor(c.p + LenExtra(t.ls), false);
    AtConcat(bs, c1.p, SymbolBits(dist, t.ds), BitsOf(t.de, DistExtra(t.ds)));
    DecodeReads(bs, c1, dist, t.ds);
    GetBitsReads(bs, DistExtra(t.ds), Cursor(c1.p + dist[t.ds], false), t.de);
  }

  lemma TokenReads(bs: seq<bool>, c: Cursor, t: Token, lit: Lengths, dist: Lengths)
    requires Encodable(t, lit, dist) && Accepts(lit) && Accepts(dist) && !c.overrun && c.p <= |bs|
    requires At(bs, c.p, TokenBits(t, lit, dist))
    ensures ReadToken(bs, c, lit, dist) == (Tok(t), Cursor(c.p + |TokenBits(t, lit, dist)|, false))
  {
    hide LenExtra, DistExtra, Accepts, Decode, SymbolBits, ReadMatch, Pow2;
    match t
    case Lit(b) =>
      DecodeReads(bs, c, lit, b);
    case Match(ls, le, ds, de) =>
      var rest := BitsOf(le, LenExtra(ls)) + (SymbolBits(dist, ds) + BitsOf(de, DistExtra(ds)));
      AtConcat(bs, c.p, SymbolBits(lit, 257 + ls), rest);
      DecodeReads(bs, c, lit, 257 + ls);
      MatchReads(bs, Cursor(c.p + lit[257 + ls], false), t, lit, dist);
  }

  lemma {:induction false} TokensRead(bs: seq<bool>, c: Cursor, out: seq<byte>, cap: nat,
                                      lit: Lengths, dist: Lengths, ts: seq<Token>)
    requires !c.overrun && c.p <= |bs| && Accepts(lit) && Accepts(dist) && 256 < |lit| && lit[256] > 0
    requires (forall t :: t in ts ==> Encodable(t, lit, dist)) && InReach(out, ts)
    requires At(bs, c.p, TokensBits(ts, lit, dist)) && |Expand(out, ts)| <= cap
    ensures BlockHuffman(bs, c, out, cap, lit, dist)
         == Run(Ok, Cursor(c.p + |TokensBits(ts, lit, dist)|, false), Expand(out, ts))
    decreases ts
  {
    hide Accepts, Decode, SymbolBits, Encodable, TokenBits, ReadToken, Copy, LenBase, DistBase;
    if ts == [] {
      EndReads(bs, c, lit, dist);
    } else {
      var head := TokenBits(ts[0], lit, dist);
      AtConcat(bs, c.p, head, TokensBits(ts[1..], lit, dist));
      TokenReads(bs, c, ts[0], lit, dist);
      TokensRead(bs, Cursor(c.p + |head|, false), Apply(out, ts[0]), cap, lit, dist, ts[1..]);
    }
  }

  lemma EndReads(bs: seq<bool>, c: Cursor, lit: Lengths, dist: Lengths)
    requires !c.overrun && c.p <= |bs| && Accepts(lit) && 256 < |lit| && lit[256] > 0
    requires At(bs, c.p, SymbolBits(lit, 256))
    ensures ReadToken(bs, c, lit, dist) == (EndOfBlock, Cursor(c.p + lit[256], false))
  {
    DecodeReads(bs, c, lit, 256);
  }

  // ----- dynamic headers

  lemma ItemReads(bs: seq<bool>, c: Cursor, it: Item, clen: Lengths, first: bool)
    requires |clen| == 19 && ItemOk(it, clen) && Accepts(clen) && (it.Repeat? ==> !first)
    requires !c.overrun && c.p <= |bs| && At(bs, c.p, ItemBits(it, clen))
    ensures ReadItem(bs, c, clen, first) == (Good(it), Cursor(c.p + |ItemBits(it, clen)|, false))
  {
    hide Accepts, Decode, SymbolBits, BitsOf, Pow2, GetBits;
    Pow2Values();
    var sym := ItemSymbol(it);
    var extra := ItemBits(it, clen)[|SymbolBits(clen, sym)|..];
    assert ItemBits(it, clen) == SymbolBits(clen, sym) + extra;
    AtConcat(bs, c.p, SymbolBits(clen, sym), extra);
    DecodeReads(bs, c, clen, sym);
    var c1 := Cursor(c.p + clen[sym], false);
    match it
    case Len(_) =>
    case Repeat(n) =>
      assert extra == BitsOf(n - 3, 2);
      GetBitsReads(bs, 2, c1, n - 3);
    case Zeros(n) =>
      assert extra == BitsOf(n - 3, 3);
      GetBitsReads(bs, 3, c1, n - 3);
    case LongZeros(n) =>
      assert extra == BitsOf(n - 11, 7);
      GetBitsReads(bs, 7, c1, n - 11);
  }

  lemma {:induction false} ItemsRead(bs: seq<bool>, c: Cursor, clen: Lengths, items: seq<Item>, acc: Lengths,
                                     want: Lengths)
    requires |clen| == 19 && Accepts(clen) && Spells(items, clen, acc, want) && |acc| <= |want|
    requires !c.overrun && c.p <= |bs|
    requires forall it :: it in items ==> ItemOk(it, clen)
    requires At(bs, c.p, ItemsBits(items, clen))
    ensures ReadLengths(bs, c, clen, acc, |want|)
         == LengthsRun(Ok, Cursor(c.p + |ItemsBits(items, clen)|, false), want)
    decreases items
  {
    hide Accepts, ItemBits, ReadItem;
    if items != [] {
      var it := items[0];
      var more := Expansion(it, acc);
      SpellsGrows(items[1..], clen, acc + more, want);
      assert |more| > 0;
      AtConcat(bs, c.p, ItemBits(it, clen), ItemsBits(items[1..], clen));
      ItemReads(bs, c, it, clen, acc == []);
      ItemsRead(bs, Cursor(c.p + |ItemBits(it, clen)|, false), clen, items[1..], acc + more, want);
    }
  }

  lemma {:induction false} SpellsGrows(items: seq<Item>, clen: Lengths, acc: Lengths, want: Lengths)
    requires |clen| == 19 && Spells(items, clen, acc, want)
    ensures |acc| <= |want|
    decreases items
  {
    if items != [] {
      SpellsGrows(items[1..], clen, acc + Expansion(items[0], acc), want);
    }
  }

  /** `acc` agrees with `clen` on the first `i` transmitted positions and is zero elsewhere. */
  ghost predicate ClenUpTo(clen: Lengths, acc: Lengths, i: nat)
    requires |clen| == 19 == |acc| && i <= 19
  {
    && (forall k :: 0 <= k < i ==> acc[ClenOrder(k)] == clen[ClenOrder(k)])
    && (forall k :: i <= k < 19 ==> acc[ClenOrder(k)] == 0)
  }

  lemma {:induction false} ClenReads(bs: seq<bool>, c: Cursor, i: nat, hclen: nat, clen: Lengths, acc: Lengths)
    requires ClenOk(clen, hclen) && i <= hclen && |acc| == 19 && ClenUpTo(clen, acc, i)
    requires !c.overrun && c.p <= |bs| && At(bs, c.p, ClenBits(clen, i, hclen))
    ensures ReadClen(bs, c, i, hclen, acc) == (clen, Cursor(c.p + 3 * (hclen - i), false))
    ensures |ClenBits(clen, i, hclen)| == 3 * (hclen - i)
    decreases hclen - i
  {
    hide ClenOrder, ClenPos, Accepts, GetBits, BitsOf, Pow2;
    if i == hclen {
      forall s | 0 <= s < 19 ensures acc[s] == clen[s] {
        ClenOrderIsPermutation(s);
        assert acc[ClenOrder(ClenPos(s))] == clen[ClenOrder(ClenPos(s))];
      }
      assert acc == clen;
    } else {
      forall k | 0 <= k < 19 && k != i ensures ClenOrder(k) != ClenOrder(i) {
        ClenOrderIsPermutation(k);
        ClenOrderIsPermutation(i);
      }
      var v := clen[ClenOrder(i)];
      Pow2Values();
      AtConcat(bs, c.p, BitsOf(v, 3), ClenBits(clen, i + 1, hclen));
      GetBitsReads(bs, 3, c, v);
      ClenReads(bs, Cursor(c.p + 3, false), i + 1, hclen, clen, acc[ClenOrder(i) := v]);
    }
  }

  /** A header's pieces, one after the other. */
  lemma HeaderPieces(bs: seq<bool>, p: nat, h: Header)
    requires HeaderOk(h) && At(bs, p, HeaderBits(h))
    ensures forall it :: it in h.items ==> ItemOk(it, h.clen)
    ensures var cl, its := ClenBits(h.clen, 0, h.hclen), ItemsBits(h.items, h.clen);
            && At(bs, p, BitsOf(|h.lit| - 257, 5)) && At(bs, p + 5, BitsOf(|h.dist| - 1, 5))
            && At(bs, p + 10, BitsOf(h.hclen - 4, 4)) && At(bs, p + 14, cl) && At(bs, p + 14 + |cl|, its)
            && |HeaderBits(h)| == 14 + |cl| + |its|
  {
    hide Accepts, BitsOf, ClenBits, ItemsBits, Spells, At;
    SpellsItemsOk(h.items, h.clen, [], h.lit + h.dist);
    var cl, its := ClenBits(h.clen, 0, h.hclen), ItemsBits(h.items, h.clen);
    AtConcat(bs, p, BitsOf(|h.lit| - 257, 5), BitsOf(|h.dist| - 1, 5) + (BitsOf(h.hclen - 4, 4) + (cl + its)));
    AtConcat(bs, p + 5, BitsOf(|h.dist| - 1, 5), BitsOf(h.hclen - 4, 4) + (cl + its));
    AtConcat(bs, p + 10, BitsOf(h.hclen - 4, 4), cl + its);
    AtConcat(bs, p + 14, cl, its);
  }

  lemma HeaderReads(bs: seq<bool>, c: Cursor, h: Header)
    requires HeaderOk(h) && !c.overrun && c.p <= |bs| && At(bs, c.p, HeaderBits(h))
    ensures ReadTables(bs, c) == Tables(h.lit, h.dist, Cursor(c.p + |HeaderBits(h)|, false))
  {
    hide Accepts, GetBits, BitsOf, Pow2, ReadClen, ReadLengths, ClenBits, ItemsBits, Spells, HeaderBits, At;
    HeaderPieces(bs, c.p, h);
    Pow2Values();
    GetBitsReads(bs, 5, c, |h.lit| - 257);
    GetBitsReads(bs, 5, Cursor(c.p + 5, false), |h.dist| - 1);
    GetBitsReads(bs, 4, Cursor(c.p + 10, false), h.hclen - 4);
    var c3 := Cursor(c.p + 14, false);
    AtFits(bs, c3.p, ClenBits(h.clen, 0, h.hclen));
    ClenReads(bs, c3, 0, h.hclen, h.clen, Replicate(0, 19));
    ItemsRead(bs, Cursor(c3.p + 3 * h.hclen, false), h.clen, h.items, [], h.lit + h.dist);
    assert (h.lit + h.dist)[..|h.lit|] == h.lit && (h.lit + h.dist)[|h.lit|..] == h.dist;
  }

  lemma AtFits(bs: seq<bool>, p: nat, bits: seq<bool>)
    requires At(bs, p, bits)
    ensures p + |bits| <= |bs|
  {
  }

  // ----- fixed tables

  function FixedCount(l: nat, n: nat): nat {
    var upTo144 := if n < 144 then n else 144;
    var upTo256 := if n < 144 then 0 else if n < 256 then n - 144 else 112;
    var upTo280 := if n < 256 then 0 else if n < 280 then n - 256 else 24;
    var upTo288 := if n < 280 then 0 else n - 280;
    if l == 8 then upTo144 + upTo288 else if l == 9 then upTo256 else if l == 7 then upTo280 else 0
  }

  lemma {:induction false} FixedLitCount(l: nat, n: nat)
    requires n <= 288
    ensures CountTo(FixedLit(), l, n) == FixedCount(l, n)
    decreases n
  {
    if n > 0 {
      FixedLitCount(l, n - 1);
    }
  }

  lemma {:induction false} FixedDistCount(l: nat, n: nat)
    requires n <= 30
    ensures CountTo(FixedDist(), l, n) == if l == 5 then n else 0
    decreases n
  {
    if n > 0 {
      FixedDistCount(l, n - 1);
    }
  }

  function FixedLitSpace(l: nat): nat
    requires l <= 15
  {
    if l < 7 then 0 else if l == 7 then 24 else if l == 8 then 200 else Pow2(l)
  }

  lemma {:induction false} FixedLitSpaceIs(l: nat)
    requires l <= 15
    ensures Space(FixedLit(), 288, l) == FixedLitSpace(l)
  {
    hide FixedLit, FixedLitSpace, FixedCount, Pow2, Space, CountTo;
    FixedLitSpaceStep(l);
    SpaceStep(FixedLit(), 288, l);
    if l > 0 {
      FixedLitSpaceIs(l - 1);
      FixedLitCount(l, 288);
    }
  }

  lemma FixedLitSpaceStep(l: nat)
    requires l <= 15
    ensures FixedLitSpace(l) == if l == 0 then 0 else 2 * FixedLitSpace(l - 1) + FixedCount(l, 288)
  {
    hide Pow2;
    Pow2Values();
    assert l > 0 ==> Pow2(l) == 2 * Pow2(l - 1) by { Pow2Step(l); }
  }

  lemma Pow2Step(l: nat)
    ensures l > 0 ==> Pow2(l) == 2 * Pow2(l - 1)
  {
  }

  lemma {:induction false} FixedDistSpaceFits(l: nat)
    requires l <= 15
    ensures Space(FixedDist(), 30, l) <= Pow2(l) && (l < 5 ==> Space(FixedDist(), 30, l) == 0)
  {
    if l > 0 {
      FixedDistSpaceFits(l - 1);
      FixedDistCount(l, 30);
      Pow2Values();
    }
  }

  lemma FixedLitSpaceFits(l: nat)
    requires l <= 15
    ensures FixedLitSpace(l) <= Pow2(l)
  {
    hide Pow2;
    Pow2Values();
  }

  /** The fixed tables are accepted, and every fixed block can be ended. */
  lemma FixedAccepted()
    ensures Accepts(FixedLit()) && Accepts(FixedDist()) && FixedLit()[256] > 0
  {
    hide Space, Pow2, FixedLitSpace;
    forall l: nat | 1 <= l <= 15
      ensures Space(FixedLit(), 288, l) <= Pow2(l) && Space(FixedDist(), 30, l) <= Pow2(l)
    {
      FixedLitSpaceIs(l);
      FixedLitSpaceFits(l);
      FixedDistSpaceFits(l);
    }
  }

  /** The canonical construction gives the fixed tables the codes RFC 1951 section 3.2.6
      lists for them. */
  lemma FixedCodes(s: nat, d: nat)
    requires s < 288 && d < 30
    ensures Code(FixedLit(), s) == if s < 144 then 0x30 + s
                                   else if s < 256 then 0x190 + (s - 144)
                                   else if s < 280 then s - 256
                                   else 0xC0 + (s - 280)
    ensures Code(FixedDist(), d) == d && FixedDist()[d] == 5
    ensures FixedLit()[s] == if s < 144 then 8 else if s < 256 then 9 else if s < 280 then 7 else 8
  {
    hide Space;
    var l := FixedLit()[s];
    FixedLitSpaceIs(l - 1);
    FixedLitCount(l, s);
    FixedDistSpaceFits(4);
    FixedDistCount(5, d);
  }

  // ----- blocks and streams

  lemma StoredAtReads(bs: seq<bool>, q: nat, out: seq<byte>, cap: nat, data: seq<byte>)
    requires q <= |bs| && |data| <= 0xFFFF && At(bs, q, StoredBits(data)) && |out| + |data| <= cap
    ensures StoredAt(bs, q, false, out, cap) == Run(Ok, Cursor(q + 32 + 8 * |data|, false), out + data)
  {
    hide ByteBits, BitsOf, GetBits, Pow2, BytesAt, At;
    Pow2Values();
    var n := |data|;
    AtFits(bs, q, StoredBits(data));
    AtConcat(bs, q, BitsOf(n, 16), BitsOf(0xFFFF - n, 16) + ByteBits(data));
    AtConcat(bs, q + 16, BitsOf(0xFFFF - n, 16), ByteBits(data));
    GetBitsReads(bs, 16, Cursor(q, false), n);
    GetBitsReads(bs, 16, Cursor(q + 16, false), 0xFFFF - n);
    BytesAtReads(bs, q + 32, data);
  }

  lemma StoredReads(bs: seq<bool>, c: Cursor, out: seq<byte>, cap: nat, b: Block)
    requires b.Stored? && BlockOk(c.p, out, b) && !c.overrun && c.p <= |bs| && |bs| % 8 == 0
    requires At(bs, c.p, BodyBits(c.p, out, b)) && |BlockMeaning(c.p, out, b)| <= cap
    ensures BlockStored(bs, c, out, cap)
         == Run(Ok, Cursor(c.p + |BodyBits(c.p, out, b)|, false), BlockMeaning(c.p, out, b))
  {
    hide StoredBits, StoredAt, At;
    AtConcat(bs, c.p, b.pad, StoredBits(b.data));
    AtFits(bs, c.p, b.pad + StoredBits(b.data));
    StoredAtReads(bs, c.p + |b.pad|, out, cap, b.data);
  }

  lemma HeaderTables(h: Header)
    requires HeaderOk(h)
    ensures 256 < |h.lit| && h.lit[256] > 0 && Accepts(h.lit) && Accepts(h.dist)
  {
  }

  lemma DynamicReads(bs: seq<bool>, c: Cursor, out: seq<byte>, cap: nat, b: Block)
    requires b.Dynamic? && BlockOk(c.p, out, b) && !c.overrun && c.p <= |bs|
    requires At(bs, c.p, BodyBits(c.p, out, b)) && |BlockMeaning(c.p, out, b)| <= cap
    ensures BlockDynamic(bs, c, out, cap)
         == Run(Ok, Cursor(c.p + |BodyBits(c.p, out, b)|, false), BlockMeaning(c.p, out, b))
  {
    hide Accepts, BlockHuffman, HeaderBits, ReadTables, HeaderOk, TokensBits, Expand, InReach, Encodable, At;
    var (h, ts) := (b.h, b.ts);
    HeaderTables(h);
    AtFits(bs, c.p, HeaderBits(h) + TokensBits(ts, h.lit, h.dist));
    AtConcat(bs, c.p, HeaderBits(h), TokensBits(ts, h.lit, h.dist));
    HeaderReads(bs, c, h);
    TokensRead(bs, Cursor(c.p + |HeaderBits(h)|, false), out, cap, h.lit, h.dist, ts);
  }

  lemma BodyReads(bs: seq<bool>, c: Cursor, out: seq<byte>, cap: nat, b: Block)
    requires BlockOk(c.p, out, b) && !c.overrun && c.p <= |bs| && |bs| % 8 == 0
    requires At(bs, c.p, BodyBits(c.p, out, b)) && |BlockMeaning(c.p, out, b)| <= cap
    ensures |out| <= cap
    ensures BlockOfKind(bs, Kind(b), c, out, cap)
         == Run(Ok, Cursor(c.p + |BodyBits(c.p, out, b)|, false), BlockMeaning(c.p, out, b))
  {
    hide Accepts, BlockStored, BlockHuffman, BlockDynamic, TokensBits, FixedLit, FixedDist;
    match b
    case Stored(_, _) =>
      StoredReads(bs, c, out, cap, b);
    case Fixed(ts) =>
      FixedAccepted();
      TokensRead(bs, c, out, cap, FixedLit(), FixedDist(), ts);
    case Dynamic(_, _) =>
      DynamicReads(bs, c, out, cap, b);
  }

  /** One turn of inf_inflate's loop over a block it can read. */
  lemma BlockReads(bs: seq<bool>, p: nat, out: seq<byte>, cap: nat, b: Block, final: bool)
    requires BlockOk(p + 3, out, b) && p <= |bs| && |bs| % 8 == 0
    requires At(bs, p, BlockBits(p, out, b, final)) && |BlockMeaning(p + 3, out, b)| <= cap
    ensures |out| <= cap && After(p, out, b) <= |bs|
    ensures InflateFrom(bs, Cursor(p, false), out, cap)
         == var c1, next := Cursor(After(p, out, b), false), BlockMeaning(p + 3, out, b);
            if final then Run(Ok, c1, next) else InflateFrom(bs, c1, next, cap)
  {
    hide BodyBits, BlockMeaning, BlockOk, BlockOfKind, BitsOf, Pow2, GetBits;
    var body := BodyBits(p + 3, out, b);
    AtCons(bs, p, final, BitsOf(Kind(b), 2) + body);
    AtConcat(bs, p + 1, BitsOf(Kind(b), 2), body);
    Pow2Values();
    GetBitsReads(bs, 2, Cursor(p + 1, false), Kind(b));
    BodyReads(bs, Cursor(p + 3, false), out, cap, b);
  }

  lemma {:induction false} StreamReads(bs: seq<bool>, p: nat, out: seq<byte>, cap: nat, blocks: seq<Block>)
    requires StreamOk(p, out, blocks) && p <= |bs| && |bs| % 8 == 0
    requires At(bs, p, StreamBits(p, out, blocks)) && |StreamMeaning(p, out, blocks)| <= cap
    ensures |out| <= cap
    ensures InflateFrom(bs, Cursor(p, false), out, cap)
         == Run(Ok, Cursor(p + |StreamBits(p, out, blocks)|, false), StreamMeaning(p, out, blocks))
    decreases blocks
  {
    hide BodyBits, BlockMeaning, BlockOk, InflateFrom;
    var b, final := blocks[0], |blocks| == 1;
    var q, next := After(p, out, b), BlockMeaning(p + 3, out, b);
    if final {
      BlockReads(bs, p, out, cap, b, true);
    } else {
      AtConcat(bs, p, BlockBits(p, out, b, false), StreamBits(q, next, blocks[1..]));
      BlockReads(bs, p, out, cap, b, false);
      StreamReads(bs, q, next, cap, blocks[1..]);
    }
  }

  /** Round trip: any byte string that begins with an encoding of `blocks` inflates
      to what the blocks mean, provided the output buffer can hold it. */
  lemma InflateInvertsEncoding(src: seq<byte>, cap: nat, blocks: seq<Block>)
    requires StreamOk(0, [], blocks) && At(ByteBits(src), 0, StreamBits(0, [], blocks))
    requires |StreamMeaning(0, [], blocks)| <= cap
    ensures Inflate(src, cap)
         == Run(Ok, Cursor(|StreamBits(0, [], blocks)|, false), StreamMeaning(0, [], blocks))
  {
    hide StreamOk, StreamBits, StreamMeaning, InflateFrom;
    StreamReads(ByteBits(src), 0, [], cap, blocks);
  }

  /** The same for the packed encoding itself. */
  lemma InflateOfPacked(cap: nat, blocks: seq<Block>)
    requires StreamOk(0, [], blocks) && |StreamMeaning(0, [], blocks)| <= cap
    ensures Inflate(Pack(StreamBits(0, [], blocks)), cap).st == Ok
    ensures Inflate(Pack(StreamBits(0, [], blocks)), cap).out == StreamMeaning(0, [], blocks)
  {
    PackHolds(StreamBits(0, [], blocks));
    InflateInvertsEncoding(Pack(StreamBits(0, [], blocks)), cap, blocks);
  }

  // ----- what the alphabets can say

  /** The last of the first `n` bases that does not exceed `v`. */
  function LastAtMost(bases: seq<nat>, v: nat, n: nat): (i: nat)
    requires 1 <= n <= |bases| && bases[0] <= v
    ensures i < n && bases[i] <= v
    ensures i + 1 < n ==> v < bases[i + 1]
  {
    if n == 1 || bases[n - 1] <= v then n - 1 else LastAtMost(bases, v, n - 1)
  }

  lemma FirstBases()
    ensures LenBase(0) == 3 && DistBase(0) == 1
  {
  }

  /** The ranges of the length symbols meet end to end up to 258, which has a symbol of its
      own besides. */
  lemma LengthsTile(i: nat)
    requires i < 29
    ensures LenBase(i) + Pow2(LenExtra(i)) == if i < 27 then LenBase(i + 1) else 259
    ensures i == 28 ==> LenBase(i) == 258
  {
    hide Pow2;
    Pow2Values();
    Powers();
  }

  /** So do those of the distance symbols, up to 32768. */
  lemma DistancesTile(i: nat)
    requires i < 30
    ensures DistBase(i) + Pow2(DistExtra(i)) == (if i < 29 then DistBase(i + 1) else 32769) <= 32769
  {
    hide Pow2;
    Pow2Values();
    Powers();
  }

  lemma LengthsAscend(i: nat, j: nat)
    requires i < j < 28
    ensures LenBase(i) + Pow2(LenExtra(i)) <= LenBase(j)
    decreases j
  {
    hide LenBase, LenExtra, Pow2;
    LengthsTile(j - 1);
    if i < j - 1 {
      LengthsAscend(i, j - 1);
    }
  }

  lemma DistancesAscend(i: nat, j: nat)
    requires i < j < 30
    ensures DistBase(i) + Pow2(DistExtra(i)) <= DistBase(j)
    decreases j
  {
    hide DistBase, DistExtra, Pow2;
    DistancesTile(j - 1);
    if i < j - 1 {
      DistancesAscend(i, j - 1);
    }
  }

  /** No match has two tokens, but that length 258 has two symbols. */
  lemma TokensUnique(t: Token, u: Token)
    requires t.Match? && u.Match?
    requires Encodable(t, FixedLit(), FixedDist()) && Encodable(u, FixedLit(), FixedDist())
    requires t.Length() == u.Length() && t.Distance() == u.Distance()
    ensures t.ds == u.ds && t.de == u.de
    ensures t.Length() < 258 ==> t == u
    ensures t.Length() == 258 ==> (t.ls, t.le) in {(27, 31), (28, 0)}
  {
    hide LenBase, LenExtra, DistBase, DistExtra, Pow2;
    if t.ds < u.ds {
      DistancesAscend(t.ds, u.ds);
    } else if u.ds < t.ds {
      DistancesAscend(u.ds, t.ds);
    }
    LengthSymbol(t.ls, t.le);
    LengthSymbol(u.ls, u.le);
    if t.ls < u.ls < 28 {
      LengthsAscend(t.ls, u.ls);
    } else if u.ls < t.ls < 28 {
      LengthsAscend(u.ls, t.ls);
    }
  }

  lemma LengthSymbol(ls: nat, le: nat)
    requires ls < 29 && le < Pow2(LenExtra(ls))
    ensures ls == 28 ==> LenBase(ls) + le == 258 && le == 0
    ensures LenBase(ls) + le == 258 ==> (ls, le) in {(27, 31), (28, 0)}
  {
    hide LenBase, LenExtra, Pow2;
    LengthsTile(ls);
    LengthRule(28);
    if ls < 27 {
      if ls < 26 {
        LengthsAscend(ls + 1, 27);
      }
      LastLengths();
    } else {
      LastLengths();
    }
  }

  lemma LastLengths()
    ensures LenBase(27) == 227 && LenBase(28) == 258 && Pow2(LenExtra(27)) == 32 && Pow2(LenExtra(28)) == 1
  {
    Pow2Values();
    Powers();
  }

  /** The fixed tables express exactly the matches RFC 1951 section 3.2.5 allows:
      lengths 3 to 258 and distances 1 to 32768. */
  lemma MatchesExpressible(length: nat, distance: nat)
    ensures (exists t: Token :: t.Match? && Encodable(t, FixedLit(), FixedDist())
                                && t.Length() == length && t.Distance() == distance)
       <==> 3 <= length <= 258 && 1 <= distance <= 32768
  {
    hide LenBase, LenExtra, DistBase, DistExtra, Pow2;
    if 3 <= length <= 258 && 1 <= distance <= 32768 {
      FirstBases();
      var ls := LastAtMost(seq(29, i requires 0 <= i < 29 => LenBase(i)), length, 29);
      var ds := LastAtMost(seq(30, i requires 0 <= i < 30 => DistBase(i)), distance, 30);
      LengthsTile(ls);
      DistancesTile(ds);
      var t := Match(ls, length - LenBase(ls), ds, distance - DistBase(ds));
      assert Encodable(t, FixedLit(), FixedDist()) && t.Length() == length && t.Distance() == distance;
    }
    if t: Token :|
        t.Match? && Encodable(t, FixedLit(), FixedDist()) && t.Length() == length && t.Distance() == distance {
      LengthsTile(t.ls);
      DistancesTile(t.ds);
    }
  }

  function Literals(data: seq<byte>): (r: seq<Token>)
    ensures |r| == |data|
  {
    if data == [] then [] else [Lit(data[0])] + Literals(data[1..])
  }

  lemma {:induction false} LiteralsExpand(out: seq<byte>, data: seq<byte>)
    ensures InReach(out, Literals(data)) && Expand(out, Literals(data)) == out + data
    ensures forall t :: t in Literals(data) ==> Encodable(t, FixedLit(), FixedDist())
    decreases data
  {
    if data != [] {
      LiteralsExpand(out + [data[0]], data[1..]);
      assert (out + [data[0]]) + data[1..] == out + data;
    }
  }

  /** Every byte string is what some stream inflates to. */
  lemma EveryOutputReached(data: seq<byte>) returns (src: seq<byte>)
    ensures Inflate(src, |data|).st == Ok && Inflate(src, |data|).out == data
  {
    hide FixedLit, FixedDist, InflateFrom, TokensBits;
    LiteralsExpand([], data);
    var blocks := [Fixed(Literals(data))];
    assert [] + data == data;
    InflateOfPacked(|data|, blocks);
    src := Pack(StreamBits(0, [], blocks));
  }
}
