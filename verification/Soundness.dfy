/** The converse of RoundTrip.dfy: inflate.c succeeds on nothing but encodings. From a
    successful run the lemmas here reconstruct the blocks that were encoded. */
module Soundness {
  import opened Bits
  import opened Huffman
  import opened Deflate
  import opened Encoder
  import opened RoundTrip

  // ----- tokens

  lemma MatchSound(bs: seq<bool>, c: Cursor, ls: nat, lit: Lengths, dist: Lengths)
    requires c.p <= |bs| && 257 + ls < |lit| && ls < 29 && lit[257 + ls] > 0
    requires var (sym, c1) := ReadMatch(bs, c, ls, dist); sym.Tok? && !c1.overrun
    ensures var (sym, c1) := ReadMatch(bs, c, ls, dist);
            && sym.t.Match? && sym.t.ls == ls && Encodable(sym.t, lit, dist)
            && var tail := BitsOf(sym.t.le, LenExtra(ls))
                           + (SymbolBits(dist, sym.t.ds) + BitsOf(sym.t.de, DistExtra(sym.t.ds)));
               At(bs, c.p, tail) && c1.p == c.p + |tail|
  {
    hide LenExtra, DistExtra, Decode, SymbolBits, GetBits, Pow2;
    var (le, c1) := GetBits(bs, LenExtra(ls), c);
    var (ds, c2) := Decode(bs, c1, dist);
    var (de, c3) := GetBits(bs, DistExtra(ds), c2);
    GetBitsSound(bs, LenExtra(ls), c);
    DecodeSound(bs, c1, dist);
    GetBitsSound(bs, DistExtra(ds), c2);
    AtConcat(bs, c2.p - dist[ds], SymbolBits(dist, ds), BitsOf(de, DistExtra(ds)));
    AtConcat(bs, c.p, BitsOf(le, LenExtra(ls)), SymbolBits(dist, ds) + BitsOf(de, DistExtra(ds)));
  }

  lemma TokenSound(bs: seq<bool>, c: Cursor, lit: Lengths, dist: Lengths)
    requires c.p <= |bs|
    requires var (sym, c1) := ReadToken(bs, c, lit, dist); sym.Tok? && !c1.overrun
    ensures var (sym, c1) := ReadToken(bs, c, lit, dist);
            && Encodable(sym.t, lit, dist)
            && At(bs, c.p, TokenBits(sym.t, lit, dist)) && c1.p == c.p + |TokenBits(sym.t, lit, dist)|
  {
    hide LenExtra, DistExtra, Decode, SymbolBits, ReadMatch, Pow2, BitsOf;
    var (sym, c1) := Decode(bs, c, lit);
    DecodeSound(bs, c, lit);
    if sym > 256 {
      MatchSound(bs, c1, sym - 257, lit, dist);
      var t := ReadMatch(bs, c1, sym - 257, dist).0.t;
      AtConcat(bs, c.p, SymbolBits(lit, sym),
        BitsOf(t.le, LenExtra(t.ls)) + (SymbolBits(dist, t.ds) + BitsOf(t.de, DistExtra(t.ds))));
    }
  }

  lemma EndSound(bs: seq<bool>, c: Cursor, lit: Lengths, dist: Lengths)
    requires c.p <= |bs| && ReadToken(bs, c, lit, dist).0.EndOfBlock?
    ensures 256 < |lit| && lit[256] > 0
    ensures At(bs, c.p, SymbolBits(lit, 256)) && ReadToken(bs, c, lit, dist).1.p == c.p + lit[256]
  {
    DecodeSound(bs, c, lit);
  }

  /** The tokens a successful block decoded, with the proof that they were encoded there. */
  lemma {:induction false} TokensSound(bs: seq<bool>, c: Cursor, out: seq<byte>, cap: nat, lit: Lengths, dist: Lengths)
    returns (ts: seq<Token>)
    requires c.p <= |bs| && |out| <= cap && 256 < |lit| && lit[256] > 0
    requires BlockHuffman(bs, c, out, cap, lit, dist).st == Ok
    ensures (forall t :: t in ts ==> Encodable(t, lit, dist)) && InReach(out, ts)
    ensures At(bs, c.p, TokensBits(ts, lit, dist))
    ensures var r := BlockHuffman(bs, c, out, cap, lit, dist);
            r.cur.p == c.p + |TokensBits(ts, lit, dist)| && r.out == Expand(out, ts)
    decreases |bs| - c.p
  {
    hide Decode, SymbolBits, Encodable, TokenBits, ReadToken, At, BlockHuffman, Apply;
    var (sym, c1) := ReadToken(bs, c, lit, dist);
    BlockTurn(bs, c, out, cap, lit, dist);
    if sym.EndOfBlock? {
      EndSound(bs, c, lit, dist);
      ts := [];
    } else {
      OverrunIsFatal(bs, c1, Apply(out, sym.t), cap, lit, dist);
      TokenSound(bs, c, lit, dist);
      var rest := TokensSound(bs, c1, Apply(out, sym.t), cap, lit, dist);
      ts := [sym.t] + rest;
      AtConcat(bs, c.p, TokenBits(sym.t, lit, dist), TokensBits(rest, lit, dist));
      assert ts[1..] == rest;
    }
  }

  /** A successful block starts with its end or with a token whose output it goes on from. */
  lemma BlockTurn(bs: seq<bool>, c: Cursor, out: seq<byte>, cap: nat, lit: Lengths, dist: Lengths)
    requires c.p <= |bs| && |out| <= cap && BlockHuffman(bs, c, out, cap, lit, dist).st == Ok
    ensures var (sym, c1) := ReadToken(bs, c, lit, dist);
            if sym.EndOfBlock? then BlockHuffman(bs, c, out, cap, lit, dist) == Run(Ok, c1, out)
            else
              && sym.Tok? && (sym.t.Match? ==> sym.t.Distance() <= |out|) && |Apply(out, sym.t)| <= cap
              && BlockHuffman(bs, c, out, cap, lit, dist) == BlockHuffman(bs, c1, Apply(out, sym.t), cap, lit, dist)
  {
    hide ReadToken, LenBase, DistBase;
  }

  lemma OverrunIsFatal(bs: seq<bool>, c: Cursor, out: seq<byte>, cap: nat, lit: Lengths, dist: Lengths)
    requires c.p <= |bs| && |out| <= cap
    ensures BlockHuffman(bs, c, out, cap, lit, dist).st == Ok ==> !c.overrun
  {
  }

  // ----- dynamic headers

  lemma {:induction false} ClenSound(bs: seq<bool>, c: Cursor, i: nat, hclen: nat, acc: Lengths)
    requires c.p <= |bs| && i <= hclen <= 19 && |acc| == 19
    requires (forall k :: 0 <= k < 19 ==> acc[k] < 8) && (forall k :: i <= k < 19 ==> acc[ClenOrder(k)] == 0)
    requires !ReadClen(bs, c, i, hclen, acc).1.overrun
    ensures var (clen, c1) := ReadClen(bs, c, i, hclen, acc);
            && (forall k :: 0 <= k < 19 ==> clen[k] < 8)
            && (forall k :: 0 <= k < i ==> clen[ClenOrder(k)] == acc[ClenOrder(k)])
            && (forall k :: hclen <= k < 19 ==> clen[ClenOrder(k)] == 0)
            && At(bs, c.p, ClenBits(clen, i, hclen)) && c1.p == c.p + |ClenBits(clen, i, hclen)|
    decreases hclen - i
  {
    hide ClenOrder, ClenPos, GetBits, BitsOf, Pow2;
    if i < hclen {
      var (v, c1) := GetBits(bs, 3, c);
      Pow2Values();
      forall k | 0 <= k < 19 && k != i ensures ClenOrder(k) != ClenOrder(i) {
        ClenOrderIsPermutation(k);
        ClenOrderIsPermutation(i);
      }
      var next := acc[ClenOrder(i) := v];
      ClenSound(bs, c1, i + 1, hclen, next);
      var clen := ReadClen(bs, c1, i + 1, hclen, next).0;
      assert clen[ClenOrder(i)] == v;
      GetBitsSound(bs, 3, c);
      AtConcat(bs, c.p, BitsOf(v, 3), ClenBits(clen, i + 1, hclen));
    }
  }

  lemma ItemSound(bs: seq<bool>, c: Cursor, clen: Lengths, first: bool)
    requires c.p <= |bs| && |clen| == 19
    requires var (res, c1) := ReadItem(bs, c, clen, first); res.Good? && !c1.overrun
    ensures var (res, c1) := ReadItem(bs, c, clen, first);
            && ItemOk(res.it, clen) && (res.it.Repeat? ==> !first)
            && At(bs, c.p, ItemBits(res.it, clen)) && c1.p == c.p + |ItemBits(res.it, clen)|
  {
    hide Decode, SymbolBits, BitsOf, Pow2, GetBits;
    Pow2Values();
    var (sym, c1) := Decode(bs, c, clen);
    DecodeSound(bs, c, clen);
    var n := if sym < 16 then 0 else if sym == 16 then 2 else if sym == 17 then 3 else 7;
    if sym < 16 {
      AtConcat(bs, c.p, SymbolBits(clen, sym), []);
    } else {
      GetBitsSound(bs, n, c1);
      AtConcat(bs, c.p, SymbolBits(clen, sym), BitsOf(GetBits(bs, n, c1).0, n));
    }
  }

  lemma {:induction false} ItemsSound(bs: seq<bool>, c: Cursor, clen: Lengths, acc: Lengths, total: nat)
    returns (items: seq<Item>)
    requires c.p <= |bs| && |clen| == 19 && |acc| <= total
    requires var r := ReadLengths(bs, c, clen, acc, total); r.st == Ok && !r.cur.overrun
    ensures var r := ReadLengths(bs, c, clen, acc, total);
            && Spells(items, clen, acc, r.acc) && (forall it :: it in items ==> ItemOk(it, clen))
            && At(bs, c.p, ItemsBits(items, clen)) && r.cur.p == c.p + |ItemsBits(items, clen)|
    decreases |bs| - c.p
  {
    hide ItemBits, ReadItem, Expansion, ItemOk, At;
    if |acc| == total {
      AtNone(bs, c.p);
      items := [];
    } else {
      var (res, c1) := ReadItem(bs, c, clen, acc == []);
      var more := Expansion(res.it, acc);
      ItemSound(bs, c, clen, acc == []);
      var rest := ItemsSound(bs, c1, clen, acc + more, total);
      items := [res.it] + rest;
      AtConcat(bs, c.p, ItemBits(res.it, clen), ItemsBits(rest, clen));
      assert items[1..] == rest;
    }
  }

  lemma HeaderSound(bs: seq<bool>, c: Cursor) returns (h: Header)
    requires c.p <= |bs|
    requires var r := ReadTables(bs, c); r.Tables? && !r.cur.overrun
    ensures var r := ReadTables(bs, c);
            && HeaderOk(h) && h.lit == r.lit && h.dist == r.dist
            && At(bs, c.p, HeaderBits(h)) && r.cur.p == c.p + |HeaderBits(h)|
  {
    hide Accepts, GetBits, BitsOf, Pow2, ReadClen, ReadLengths, ClenBits, ItemsBits, Spells, At;
    Pow2Values();
    var (a, c1) := GetBits(bs, 5, c);
    var (b, c2) := GetBits(bs, 5, c1);
    var (d, c3) := GetBits(bs, 4, c2);
    var (clen, c4) := ReadClen(bs, c3, 0, d + 4, Replicate(0, 19));
    var run := ReadLengths(bs, c4, clen, [], a + 257 + (b + 1));
    GetBitsSound(bs, 5, c);
    GetBitsSound(bs, 5, c1);
    GetBitsSound(bs, 4, c2);
    ClenSound(bs, c3, 0, d + 4, Replicate(0, 19));
    var items := ItemsSound(bs, c4, clen, [], a + 257 + (b + 1));
    h := Header(d + 4, clen, items, run.acc[..a + 257], run.acc[a + 257..]);
    assert h.lit + h.dist == run.acc;
    var cl, its := ClenBits(clen, 0, d + 4), ItemsBits(items, clen);
    AtConcat(bs, c3.p, cl, its);
    AtConcat(bs, c2.p, BitsOf(d, 4), cl + its);
    AtConcat(bs, c1.p, BitsOf(b, 5), BitsOf(d, 4) + (cl + its));
    AtConcat(bs, c.p, BitsOf(a, 5), BitsOf(b, 5) + (BitsOf(d, 4) + (cl + its)));
  }

  // ----- blocks and streams

  lemma StoredAtSound(bs: seq<bool>, q: nat, out: seq<byte>, cap: nat) returns (data: seq<byte>)
    requires q <= |bs| && |out| <= cap && StoredAt(bs, q, false, out, cap).st == Ok
    ensures |data| <= 0xFFFF && At(bs, q, StoredBits(data))
    ensures StoredAt(bs, q, false, out, cap) == Run(Ok, Cursor(q + 32 + 8 * |data|, false), out + data)
  {
    hide ByteBits, BitsOf, GetBits, Pow2, BytesAt, At;
    Pow2Values();
    var n := GetBits(bs, 16, Cursor(q, false)).0;
    GetBitsInRange(bs, 16, Cursor(q, false));
    GetBitsInRange(bs, 16, Cursor(q + 16, false));
    GetBitsSound(bs, 16, Cursor(q, false));
    GetBitsSound(bs, 16, Cursor(q + 16, false));
    BytesAtSound(bs, q + 32, n);
    data := BytesAt(bs, q + 32, n);
    AtConcat(bs, q + 16, BitsOf(0xFFFF - n, 16), ByteBits(data));
    AtConcat(bs, q, BitsOf(n, 16), BitsOf(0xFFFF - n, 16) + ByteBits(data));
  }

  lemma StoredSound(bs: seq<bool>, c: Cursor, out: seq<byte>, cap: nat) returns (b: Block)
    requires c.p <= |bs| && |bs| % 8 == 0 && |out| <= cap && !c.overrun
    requires BlockStored(bs, c, out, cap).st == Ok
    ensures var r := BlockStored(bs, c, out, cap);
            && b.Stored? && BlockOk(c.p, out, b) && At(bs, c.p, BodyBits(c.p, out, b))
            && r.cur.p == c.p + |BodyBits(c.p, out, b)| && r.out == BlockMeaning(c.p, out, b)
  {
    hide StoredBits, StoredAt;
    var q := 8 * ((c.p + 7) / 8);
    var data := StoredAtSound(bs, q, out, cap);
    b := Stored(bs[c.p..q], data);
    AtConcat(bs, c.p, b.pad, StoredBits(data));
  }

  lemma BodySound(bs: seq<bool>, kind: nat, c: Cursor, out: seq<byte>, cap: nat) returns (b: Block)
    requires c.p <= |bs| && |bs| % 8 == 0 && |out| <= cap && !c.overrun
    requires var r := BlockOfKind(bs, kind, c, out, cap); r.st == Ok && !r.cur.overrun
    ensures var r := BlockOfKind(bs, kind, c, out, cap);
            && kind == Kind(b) && BlockOk(c.p, out, b) && At(bs, c.p, BodyBits(c.p, out, b))
            && r.cur.p == c.p + |BodyBits(c.p, out, b)| && r.out == BlockMeaning(c.p, out, b)
  {
    hide Accepts, BlockStored, BlockHuffman, TokensBits, HeaderBits, FixedLit, FixedDist, ReadTables;
    if kind == 0 {
      b := StoredSound(bs, c, out, cap);
    } else if kind == 1 {
      FixedAccepted();
      var ts := TokensSound(bs, c, out, cap, FixedLit(), FixedDist());
      b := Fixed(ts);
    } else {
      var tables := ReadTables(bs, c);
      OverrunIsFatal(bs, tables.cur, out, cap, tables.lit, tables.dist);
      var h := HeaderSound(bs, c);
      var ts := TokensSound(bs, tables.cur, out, cap, h.lit, h.dist);
      b := Dynamic(h, ts);
      AtConcat(bs, c.p, HeaderBits(h), TokensBits(ts, h.lit, h.dist));
    }
  }

  lemma {:induction false} StreamSound(bs: seq<bool>, p: nat, out: seq<byte>, cap: nat) returns (blocks: seq<Block>)
    requires p <= |bs| && |bs| % 8 == 0 && |out| <= cap
    requires InflateFrom(bs, Cursor(p, false), out, cap).st == Ok
    ensures StreamOk(p, out, blocks) && At(bs, p, StreamBits(p, out, blocks))
    ensures InflateFrom(bs, Cursor(p, false), out, cap).out == StreamMeaning(p, out, blocks)
    decreases |bs| - p
  {
    hide BodyBits, BlockMeaning, BlockOk, BlockOfKind, BitsOf, Pow2, GetBits;
    var (final, c1) := GetBit(bs, Cursor(p, false));
    var (kind, c2) := GetBits(bs, 2, c1);
    var b := BodySound(bs, kind, c2, out, cap);
    var r := BlockOfKind(bs, kind, c2, out, cap);
    GetBitsSound(bs, 2, c1);
    AtConcat(bs, p + 1, BitsOf(kind, 2), BodyBits(p + 3, out, b));
    AtCons(bs, p, final, BitsOf(kind, 2) + BodyBits(p + 3, out, b));
    if final {
      blocks := [b];
    } else {
      var rest := StreamSound(bs, r.cur.p, r.out, cap);
      blocks := [b] + rest;
      assert blocks[1..] == rest;
      AtConcat(bs, p, BlockBits(p, out, b, false), StreamBits(r.cur.p, r.out, rest));
    }
  }

  /** `src` begins with an encoding of some blocks that mean `out`. */
  ghost predicate Encodes(src: seq<byte>, out: seq<byte>) {
    exists blocks :: StreamOk(0, [], blocks) && At(ByteBits(src), 0, StreamBits(0, [], blocks))
                     && StreamMeaning(0, [], blocks) == out
  }

  /** inflate.c accepts exactly the RFC 1951 encodings whose expansion fits the buffer,
      and answers with that expansion. */
  lemma InflateIsExact(src: seq<byte>, cap: nat, out: seq<byte>)
    ensures Inflate(src, cap).st == Ok && Inflate(src, cap).out == out
       <==> Encodes(src, out) && |out| <= cap
  {
    hide StreamOk, StreamBits, StreamMeaning, InflateFrom, ByteBits;
    if Inflate(src, cap).st == Ok && Inflate(src, cap).out == out {
      var blocks := StreamSound(ByteBits(src), 0, [], cap);
    }
    if Encodes(src, out) && |out| <= cap {
      var blocks :| StreamOk(0, [], blocks) && At(ByteBits(src), 0, StreamBits(0, [], blocks))
                    && StreamMeaning(0, [], blocks) == out;
      InflateInvertsEncoding(src, cap, blocks);
    }
  }
}
