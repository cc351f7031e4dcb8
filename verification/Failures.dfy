/** Why decoding fails: too little room, too little input, a distance before the start,
    malformed blocks. */
module Failures {
  import opened Bits
  import opened Huffman
  import opened Deflate
  import opened Encoder
  import opened RoundTrip

  // ----- too little room

  /** With less room a run ends as it did if its output fits, and else for want of room,
      having written a beginning of it. */
  predicate Narrowed(r: Run, r': Run, cap: nat) {
    if |r.out| <= cap then r' == r else r'.st == ErrOutput && r'.out <= r.out && |r'.out| <= cap
  }

  lemma {:induction false} CopyPrefix(out: seq<byte>, dist: nat, m: nat, n: nat)
    requires 1 <= dist <= |out| && m <= n
    ensures Copy(out, dist, m) <= Copy(out, dist, n)
    decreases m
  {
    if m > 0 {
      CopyPrefix(out + [out[|out| - dist]], dist, m - 1, n - 1);
    }
  }

  lemma {:induction false} BlockNarrowed(bs: seq<bool>, c: Cursor, out: seq<byte>, cap: nat, cap': nat, lit: Lengths,
                                         dist: Lengths)
    requires c.p <= |bs| && |out| <= cap' <= cap && BlockHuffman(bs, c, out, cap, lit, dist).st == Ok
    ensures Narrowed(BlockHuffman(bs, c, out, cap, lit, dist), BlockHuffman(bs, c, out, cap', lit, dist), cap')
    decreases |bs| - c.p
  {
    hide ReadToken, Copy, LenBase, DistBase;
    var (sym, c1) := ReadToken(bs, c, lit, dist);
    match sym
    case Bad(_) =>
    case EndOfBlock =>
    case Tok(Lit(b)) =>
      if |out| < cap' {
        BlockNarrowed(bs, c1, out + [b], cap, cap', lit, dist);
      } else {
        assert out <= out + [b] <= BlockHuffman(bs, c1, out + [b], cap, lit, dist).out;
      }
    case Tok(t) =>
      if |out| + t.Length() <= cap' {
        BlockNarrowed(bs, c1, Copy(out, t.Distance(), t.Length()), cap, cap', lit, dist);
      } else {
        CopyPrefix(out, t.Distance(), cap' - |out|, t.Length());
        var whole := Copy(out, t.Distance(), t.Length());
        assert whole <= BlockHuffman(bs, c1, whole, cap, lit, dist).out;
      }
  }

  lemma KindNarrowed(bs: seq<bool>, kind: nat, c: Cursor, out: seq<byte>, cap: nat, cap': nat)
    requires c.p <= |bs| && |bs| % 8 == 0 && |out| <= cap' <= cap && BlockOfKind(bs, kind, c, out, cap).st == Ok
    ensures Narrowed(BlockOfKind(bs, kind, c, out, cap), BlockOfKind(bs, kind, c, out, cap'), cap')
  {
    hide BlockHuffman, ReadTables, FixedLit, FixedDist, GetBits, BytesAt;
    if kind == 1 {
      BlockNarrowed(bs, c, out, cap, cap', FixedLit(), FixedDist());
    } else if kind == 2 {
      match ReadTables(bs, c)
      case NoTables(_, _) =>
      case Tables(lit, dist, c1) => BlockNarrowed(bs, c1, out, cap, cap', lit, dist);
    }
  }

  lemma {:induction false} StreamNarrowed(bs: seq<bool>, c: Cursor, out: seq<byte>, cap: nat, cap': nat)
    requires c.p <= |bs| && |bs| % 8 == 0 && |out| <= cap' <= cap && InflateFrom(bs, c, out, cap).st == Ok
    ensures Narrowed(InflateFrom(bs, c, out, cap), InflateFrom(bs, c, out, cap'), cap')
    decreases |bs| - c.p
  {
    hide BlockOfKind, GetBits;
    var (final, c1) := GetBit(bs, c);
    var (kind, c2) := GetBits(bs, 2, c1);
    KindNarrowed(bs, kind, c2, out, cap, cap');
    var r := BlockOfKind(bs, kind, c2, out, cap);
    if !final {
      assert r.out <= InflateFrom(bs, r.cur, r.out, cap).out;
      if |r.out| <= cap' {
        StreamNarrowed(bs, r.cur, r.out, cap, cap');
      }
    }
  }

  /** A stream that can be inflated at all is inflated exactly when there is room for its
      output; if there is not, that is what is reported, after a beginning of the output. */
  lemma InflatesIffRoom(src: seq<byte>, cap: nat, cap': nat)
    requires Inflate(src, cap).st == Ok
    ensures var out := Inflate(src, cap).out;
            if |out| <= cap' then Inflate(src, cap') == Inflate(src, cap)
            else Inflate(src, cap').st == ErrOutput && Inflate(src, cap').out <= out
  {
    hide InflateFrom;
    if cap' <= cap {
      StreamNarrowed(ByteBits(src), Cursor(0, false), [], cap, cap');
    } else {
      StreamWidened(ByteBits(src), Cursor(0, false), [], cap, cap');
    }
  }

  // more room changes nothing

  lemma {:induction false} BlockWidened(bs: seq<bool>, c: Cursor, out: seq<byte>, cap: nat, cap': nat, lit: Lengths,
                                        dist: Lengths)
    requires c.p <= |bs| && |out| <= cap <= cap' && BlockHuffman(bs, c, out, cap, lit, dist).st == Ok
    ensures BlockHuffman(bs, c, out, cap', lit, dist) == BlockHuffman(bs, c, out, cap, lit, dist)
    decreases |bs| - c.p
  {
    hide ReadToken, Copy, LenBase, DistBase;
    var (sym, c1) := ReadToken(bs, c, lit, dist);
    match sym
    case Bad(_) =>
    case EndOfBlock =>
    case Tok(Lit(b)) => BlockWidened(bs, c1, out + [b], cap, cap', lit, dist);
    case Tok(t) => BlockWidened(bs, c1, Copy(out, t.Distance(), t.Length()), cap, cap', lit, dist);
  }

  lemma KindWidened(bs: seq<bool>, kind: nat, c: Cursor, out: seq<byte>, cap: nat, cap': nat)
    requires c.p <= |bs| && |bs| % 8 == 0 && |out| <= cap <= cap' && BlockOfKind(bs, kind, c, out, cap).st == Ok
    ensures BlockOfKind(bs, kind, c, out, cap') == BlockOfKind(bs, kind, c, out, cap)
  {
    hide BlockHuffman, ReadTables, FixedLit, FixedDist, GetBits, BytesAt;
    if kind == 1 {
      BlockWidened(bs, c, out, cap, cap', FixedLit(), FixedDist());
    } else if kind == 2 {
      match ReadTables(bs, c)
      case NoTables(_, _) =>
      case Tables(lit, dist, c1) => BlockWidened(bs, c1, out, cap, cap', lit, dist);
    }
  }

  lemma {:induction false} StreamWidened(bs: seq<bool>, c: Cursor, out: seq<byte>, cap: nat, cap': nat)
    requires c.p <= |bs| && |bs| % 8 == 0 && |out| <= cap <= cap' && InflateFrom(bs, c, out, cap).st == Ok
    ensures InflateFrom(bs, c, out, cap') == InflateFrom(bs, c, out, cap)
    decreases |bs| - c.p
  {
    hide BlockOfKind, GetBits;
    var (final, c1) := GetBit(bs, c);
    var (kind, c2) := GetBits(bs, 2, c1);
    KindWidened(bs, kind, c2, out, cap, cap');
    var r := BlockOfKind(bs, kind, c2, out, cap);
    if !final {
      StreamWidened(bs, r.cur, r.out, cap, cap');
    }
  }

  // ----- too little input

  /** A value whose bits were cut off is read with zeros in their place. */
  lemma {:induction false} GetBitsCut(bs: seq<bool>, cut: seq<bool>, n: nat, c: Cursor)
    requires cut <= bs && c.p <= |cut| && !GetBits(bs, n, c).1.overrun
    ensures c.p + n <= |cut| ==> GetBits(cut, n, c) == GetBits(bs, n, c)
    ensures c.p + n > |cut| ==>
              GetBits(cut, n, c).1 == Cursor(|cut|, true) && GetBits(cut, n, c).0 <= GetBits(bs, n, c).0
  {
    if n > 0 {
      var (b, c1) := GetBit(bs, c);
      if c.p < |cut| {
        GetBitsCut(bs, cut, n - 1, c1);
      } else {
        GetBitsPast(cut, n, c);
      }
    }
  }

  lemma {:induction false} GetBitsPast(bs: seq<bool>, n: nat, c: Cursor)
    requires c.p == |bs|
    ensures GetBits(bs, n, c) == (0, if n > 0 then Cursor(|bs|, true) else c)
  {
    if n > 0 {
      GetBitsPast(bs, n - 1, Cursor(|bs|, true));
    }
  }

  lemma {:induction false} DecodeFromCut(bs: seq<bool>, cut: seq<bool>, c: Cursor, ls: Lengths, len: nat, code: nat)
    requires cut <= bs && c.p <= |cut| && 1 <= len <= 16 && 2 * code >= First(ls, len)
    requires !DecodeFrom(bs, c, ls, len, code).1.overrun
    ensures if DecodeFrom(bs, c, ls, len, code).1.p <= |cut| then
              DecodeFrom(cut, c, ls, len, code) == DecodeFrom(bs, c, ls, len, code)
            else DecodeFrom(cut, c, ls, len, code).1.overrun
    decreases 16 - len
  {
    hide First, Count, Nth, DecodeFrom;
    if len == 16 {
      DecodeEnds(bs, c, ls, code);
      DecodeEnds(cut, c, ls, code);
    } else {
      FirstStep(ls, len);
      DecodeStep(bs, c, ls, len, code);
      DecodeStep(cut, c, ls, len, code);
      var (b, c1) := GetBit(bs, c);
      var code' := 2 * code + Num(b);
      if c.p < |cut| && code' - First(ls, len) >= Count(ls, len) {
        DecodeFromCut(bs, cut, c1, ls, len + 1, code');
      }
    }
  }

  lemma DecodeCut(bs: seq<bool>, cut: seq<bool>, c: Cursor, ls: Lengths)
    requires cut <= bs && c.p <= |cut| && !Decode(bs, c, ls).1.overrun
    ensures if Decode(bs, c, ls).1.p <= |cut| then Decode(cut, c, ls) == Decode(bs, c, ls)
            else Decode(cut, c, ls).1.overrun
  {
    DecodeFromCut(bs, cut, c, ls, 1, 0);
  }

  /** A token cut off is noticed, or is a match whose distance was cut short. */
  predicate TokenCut(r: (Symbol, Cursor), r': (Symbol, Cursor)) {
    && r'.1.overrun
    && (r'.0 == Bad(ErrInput)
        || (r.0.Tok? && r.0.t.Match? && r'.0.Tok? && r'.0.t.Match? && r'.0.t.de <= r.0.t.de
            && r'.0.t == r.0.t.(de := r'.0.t.de)))
  }

  lemma ReadMatchCut(bs: seq<bool>, cut: seq<bool>, c: Cursor, ls: nat, dist: Lengths)
    requires cut <= bs && c.p <= |cut| && ls < 29
    requires !ReadMatch(bs, c, ls, dist).0.Bad? && !ReadMatch(bs, c, ls, dist).1.overrun
    ensures var r, r' := ReadMatch(bs, c, ls, dist), ReadMatch(cut, c, ls, dist);
            if r.1.p <= |cut| then r' == r else TokenCut(r, r')
  {
    hide LenExtra, DistExtra, Decode, GetBits;
    var (le, c1) := GetBits(bs, LenExtra(ls), c);
    GetBitsCut(bs, cut, LenExtra(ls), c);
    if c1.p <= |cut| {
      var (ds, c2) := Decode(bs, c1, dist);
      DecodeCut(bs, cut, c1, dist);
      if c2.p <= |cut| {
        GetBitsCut(bs, cut, DistExtra(ds), c2);
      }
    }
  }

  lemma ReadTokenCut(bs: seq<bool>, cut: seq<bool>, c: Cursor, lit: Lengths, dist: Lengths)
    requires cut <= bs && c.p <= |cut|
    requires !ReadToken(bs, c, lit, dist).0.Bad? && !ReadToken(bs, c, lit, dist).1.overrun
    ensures var r, r' := ReadToken(bs, c, lit, dist), ReadToken(cut, c, lit, dist);
            if r.1.p <= |cut| then r' == r else TokenCut(r, r')
  {
    hide Decode, ReadMatch;
    var (sym, c1) := Decode(bs, c, lit);
    DecodeCut(bs, cut, c, lit);
    if sym > 256 && c1.p <= |cut| {
      ReadMatchCut(bs, cut, c1, sym - 257, dist);
    }
  }

  lemma BlockOverrun(bs: seq<bool>, c: Cursor, out: seq<byte>, cap: nat, lit: Lengths, dist: Lengths)
    requires c.p <= |bs| && |out| <= cap && c.overrun
    ensures BlockHuffman(bs, c, out, cap, lit, dist).st == ErrInput
  {
  }

  /** A run cut off before its end reports that; what it did not come to does not matter. */
  predicate CutShort(r: Run, r': Run, n: nat) {
    if r.cur.p <= n then r' == r else r'.st == ErrInput
  }

  lemma {:induction false} BlockCut(bs: seq<bool>, cut: seq<bool>, c: Cursor, out: seq<byte>, cap: nat, lit: Lengths,
                                    dist: Lengths)
    requires cut <= bs && c.p <= |cut| && |out| <= cap && BlockHuffman(bs, c, out, cap, lit, dist).st == Ok
    ensures CutShort(BlockHuffman(bs, c, out, cap, lit, dist), BlockHuffman(cut, c, out, cap, lit, dist), |cut|)
    decreases |bs| - c.p
  {
    hide ReadToken, Copy, LenBase, DistBase;
    var (sym, c1) := ReadToken(bs, c, lit, dist);
    var next := if sym.EndOfBlock? then out else if sym.t.Lit? then out + [sym.t.b]
                else Copy(out, sym.t.Distance(), sym.t.Length());
    if !sym.EndOfBlock? && c1.overrun {
      BlockOverrun(bs, c1, next, cap, lit, dist);
    }
    ReadTokenCut(bs, cut, c, lit, dist);
    var (sym', c1') := ReadToken(cut, c, lit, dist);
    if c1.p <= |cut| {
      if !sym.EndOfBlock? {
        BlockCut(bs, cut, c1, next, cap, lit, dist);
      }
    } else if sym'.Tok? {
      BlockOverrun(cut, c1', Copy(out, sym'.t.Distance(), sym'.t.Length()), cap, lit, dist);
    }
  }

  lemma {:induction false} BytesAtCut(bs: seq<bool>, cut: seq<bool>, p: nat, n: nat)
    requires cut <= bs && p + 8 * n <= |cut|
    ensures BytesAt(cut, p, n) == BytesAt(bs, p, n)
    decreases n
  {
    if n > 0 {
      GetBitsInRange(bs, 8, Cursor(p, false));
      GetBitsCut(bs, cut, 8, Cursor(p, false));
      BytesAtCut(bs, cut, p + 8, n - 1);
    }
  }

  lemma StoredCut(bs: seq<bool>, cut: seq<bool>, c: Cursor, out: seq<byte>, cap: nat)
    requires cut <= bs && c.p <= |cut| && |out| <= cap && |bs| % 8 == 0 == |cut| % 8
    requires BlockStored(bs, c, out, cap).st == Ok
    ensures CutShort(BlockStored(bs, c, out, cap), BlockStored(cut, c, out, cap), |cut|)
  {
    hide GetBits, BytesAt;
    var q := 8 * ((c.p + 7) / 8);
    assert q <= |cut|;
    if q + 32 <= |cut| {
      GetBitsInRange(bs, 16, Cursor(q, false));
      GetBitsInRange(bs, 16, Cursor(q + 16, false));
      GetBitsCut(bs, cut, 16, Cursor(q, false));
      GetBitsCut(bs, cut, 16, Cursor(q + 16, false));
      var len := GetBits(bs, 16, Cursor(q, false)).0;
      if q + 32 + 8 * len <= |cut| {
        BytesAtCut(bs, cut, q + 32, len);
      }
    }
  }

  // dynamic headers

  lemma {:induction false} ReadClenCut(bs: seq<bool>, cut: seq<bool>, c: Cursor, i: nat, hclen: nat, acc: Lengths)
    requires cut <= bs && c.p <= |cut| && i <= hclen <= 19 && |acc| == 19
    requires !ReadClen(bs, c, i, hclen, acc).1.overrun
    ensures var r, r' := ReadClen(bs, c, i, hclen, acc), ReadClen(cut, c, i, hclen, acc);
            if r.1.p <= |cut| then r' == r else r'.1.overrun
    decreases hclen - i
  {
    hide GetBits, ClenOrder;
    if i < hclen {
      var (v, c1) := GetBits(bs, 3, c);
      GetBitsCut(bs, cut, 3, c);
      if c1.p <= |cut| {
        assert Pow2(3) == 8 by { Pow2Values(); }
        ReadClenCut(bs, cut, c1, i + 1, hclen, acc[ClenOrder(i) := v]);
      }
    }
  }

  /** An instruction cut off is noticed, or is a run cut short. */
  predicate ItemCut(r: (ItemResult, Cursor), r': (ItemResult, Cursor)) {
    && r'.1.overrun
    && (r'.0 == BadItem(ErrInput) || (r.0.Good? && r'.0.Good? && Shorter(r'.0.it, r.0.it)))
  }

  predicate Shorter(it': Item, it: Item) {
    match it'
    case Len(_) => false
    case Repeat(n) => it.Repeat? && n <= it.n
    case Zeros(n) => it.Zeros? && n <= it.n
    case LongZeros(n) => it.LongZeros? && n <= it.n
  }

  lemma ReadItemCut(bs: seq<bool>, cut: seq<bool>, c: Cursor, clen: Lengths, first: bool)
    requires cut <= bs && c.p <= |cut| && |clen| == 19
    requires ReadItem(bs, c, clen, first).0.Good? && !ReadItem(bs, c, clen, first).1.overrun
    ensures var r, r' := ReadItem(bs, c, clen, first), ReadItem(cut, c, clen, first);
            if r.1.p <= |cut| then r' == r else ItemCut(r, r')
  {
    hide Decode, GetBits, Pow2;
    var (sym, c1) := Decode(bs, c, clen);
    DecodeCut(bs, cut, c, clen);
    if c1.p <= |cut| && sym >= 16 {
      GetBitsCut(bs, cut, if sym == 16 then 2 else if sym == 17 then 3 else 7, c1);
    }
  }

  lemma LengthsOverrun(bs: seq<bool>, c: Cursor, clen: Lengths, acc: Lengths, total: nat)
    requires c.p <= |bs| && |clen| == 19 && |acc| <= total && c.overrun
    ensures var r := ReadLengths(bs, c, clen, acc, total);
            r.cur.overrun && if |acc| == total then r.st == Ok && r.acc == acc else r.st == ErrInput
  {
  }

  lemma {:induction false} ReadLengthsCut(bs: seq<bool>, cut: seq<bool>, c: Cursor, clen: Lengths, acc: Lengths,
                                          total: nat)
    requires cut <= bs && c.p <= |cut| && |clen| == 19 && |acc| <= total
    requires ReadLengths(bs, c, clen, acc, total).st == Ok && !ReadLengths(bs, c, clen, acc, total).cur.overrun
    ensures var r, r' := ReadLengths(bs, c, clen, acc, total), ReadLengths(cut, c, clen, acc, total);
            if r.cur.p <= |cut| then r' == r
            else r'.cur.overrun && (r'.st == ErrInput || (r'.st == Ok && r'.acc == r.acc))
    decreases |bs| - c.p
  {
    hide ReadItem;
    if |acc| < total {
      var (res, c1) := ReadItem(bs, c, clen, acc == []);
      ReadItemCut(bs, cut, c, clen, acc == []);
      var (res', c1') := ReadItem(cut, c, clen, acc == []);
      if c1.p <= |cut| {
        ReadLengthsCut(bs, cut, c1, clen, acc + Expansion(res.it, acc), total);
      } else if res'.Good? {
        var more, more' := Expansion(res.it, acc), Expansion(res'.it, acc);
        LengthsOverrun(cut, c1', clen, acc + more', total);
        if |more'| == |more| {
          assert more' == more;
        }
      }
    }
  }

  lemma ClenOverrun(bs: seq<bool>, c: Cursor, hclen: nat)
    requires c.p <= |bs| && 4 <= hclen <= 19 && c.overrun
    ensures ReadClen(bs, c, 0, hclen, Replicate(0, 19)).1.overrun
  {
  }

  lemma ReadHeaderCut(bs: seq<bool>, cut: seq<bool>, c: Cursor)
    requires cut <= bs && c.p <= |cut| && ReadHeader(bs, c).AllLengths? && !ReadHeader(bs, c).cur.overrun
    ensures var r, r' := ReadHeader(bs, c), ReadHeader(cut, c);
            if r.cur.p <= |cut| then r' == r
            else (r'.NoHeader? && r'.st == ErrInput)
                 || (r'.AllLengths? && r'.hlit == r.hlit && r'.acc == r.acc && r'.cur.overrun)
  {
    hide GetBits, ReadClen, ReadLengths, Pow2, Accepts;
    var (a, c1) := GetBits(bs, 5, c);
    var (b, c2) := GetBits(bs, 5, c1);
    var (d, c3) := GetBits(bs, 4, c2);
    assert Pow2(4) == 16 by { Pow2Values(); }
    var hclen := d + 4;
    var (clen, c4) := ReadClen(bs, c3, 0, hclen, Replicate(0, 19));
    GetBitsCut(bs, cut, 5, c);
    if c1.p <= |cut| {
      GetBitsCut(bs, cut, 5, c1);
      if c2.p <= |cut| {
        GetBitsCut(bs, cut, 4, c2);
        if c3.p <= |cut| {
          ReadClenCut(bs, cut, c3, 0, hclen, Replicate(0, 19));
          if c4.p <= |cut| {
            ReadLengthsCut(bs, cut, c4, clen, [], a + 257 + (b + 1));
          }
        }
      } else {
        GetBitsPast(cut, 4, Cursor(|cut|, true));
      }
    } else {
      GetBitsPast(cut, 5, Cursor(|cut|, true));
      GetBitsPast(cut, 4, Cursor(|cut|, true));
    }
  }

  lemma DynamicCut(bs: seq<bool>, cut: seq<bool>, c: Cursor, out: seq<byte>, cap: nat)
    requires cut <= bs && c.p <= |cut| && |out| <= cap && BlockDynamic(bs, c, out, cap).st == Ok
    ensures CutShort(BlockDynamic(bs, c, out, cap), BlockDynamic(cut, c, out, cap), |cut|)
  {
    hide ReadHeader, BlockHuffman, Accepts;
    match ReadHeader(bs, c)
    case NoHeader(_, _) =>
    case AllLengths(hlit, acc, c1) =>
      if c1.overrun {
        BlockOverrun(bs, c1, out, cap, acc[..hlit], acc[hlit..]);
      }
      ReadHeaderCut(bs, cut, c);
      if c1.p <= |cut| {
        BlockCut(bs, cut, c1, out, cap, acc[..hlit], acc[hlit..]);
      } else if ReadHeader(cut, c).AllLengths? {
        BlockOverrun(cut, ReadHeader(cut, c).cur, out, cap, acc[..hlit], acc[hlit..]);
      }
  }

  lemma KindCut(bs: seq<bool>, cut: seq<bool>, kind: nat, c: Cursor, out: seq<byte>, cap: nat)
    requires cut <= bs && c.p <= |cut| && |out| <= cap && |bs| % 8 == 0 == |cut| % 8
    requires BlockOfKind(bs, kind, c, out, cap).st == Ok
    ensures CutShort(BlockOfKind(bs, kind, c, out, cap), BlockOfKind(cut, kind, c, out, cap), |cut|)
  {
    hide BlockStored, BlockHuffman, BlockDynamic, FixedLit, FixedDist;
    if kind == 0 {
      StoredCut(bs, cut, c, out, cap);
    } else if kind == 1 {
      BlockCut(bs, cut, c, out, cap, FixedLit(), FixedDist());
    } else {
      DynamicCut(bs, cut, c, out, cap);
    }
  }

  lemma {:induction false} StreamCut(bs: seq<bool>, cut: seq<bool>, c: Cursor, out: seq<byte>, cap: nat)
    requires cut <= bs && c.p <= |cut| && |out| <= cap && |bs| % 8 == 0 == |cut| % 8 && !c.overrun
    requires InflateFrom(bs, c, out, cap).st == Ok
    ensures CutShort(InflateFrom(bs, c, out, cap), InflateFrom(cut, c, out, cap), |cut|)
    decreases |bs| - c.p
  {
    hide BlockOfKind, GetBits;
    var (final, c1) := GetBit(bs, c);
    var (kind, c2) := GetBits(bs, 2, c1);
    if c1.p <= |cut| {
      GetBitsCut(bs, cut, 2, c1);
    }
    if c2.p <= |cut| {
      KindCut(bs, cut, kind, c2, out, cap);
      var r := BlockOfKind(bs, kind, c2, out, cap);
      if !final && r.cur.p <= |cut| {
        StreamCut(bs, cut, r.cur, r.out, cap);
      }
    }
  }

  lemma {:induction false} ByteBitsOfPrefix(src: seq<byte>, n: nat)
    requires n <= |src|
    ensures ByteBits(src[..n]) == ByteBits(src)[..8 * n]
    decreases n
  {
    if n > 0 {
      ByteBitsOfPrefix(src[1..], n - 1);
      assert src[..n][0] == src[0] && src[..n][1..] == src[1..][..n - 1];
      var a, b := BitsOf(src[0], 8), ByteBits(src[1..]);
      assert (a + b)[..8 * n] == a + b[..8 * n - 8];
    }
  }

  /** Of a stream that inflates, every beginning that lacks a byte it uses is reported as
      truncated, never as anything else and never as done; what follows does not matter. */
  lemma TruncationIsReported(src: seq<byte>, cap: nat, n: nat)
    requires n <= |src| && Inflate(src, cap).st == Ok
    ensures if Inflate(src, cap).cur.p <= 8 * n then Inflate(src[..n], cap) == Inflate(src, cap)
            else Inflate(src[..n], cap).st == ErrInput
  {
    hide InflateFrom;
    ByteBitsOfPrefix(src, n);
    StreamCut(ByteBits(src), ByteBits(src[..n]), Cursor(0, false), [], cap);
  }

  // ----- distances and malformed blocks

  /** A match that reaches back before the start of the output is reported as that. */
  lemma {:induction false} DistanceIsReported(bs: seq<bool>, c: Cursor, out: seq<byte>, cap: nat, lit: Lengths,
                                              dist: Lengths, ts: seq<Token>, t: Token)
    requires !c.overrun && c.p <= |bs| && Accepts(lit) && Accepts(dist)
    requires (forall u :: u in ts ==> Encodable(u, lit, dist)) && InReach(out, ts) && |Expand(out, ts)| <= cap
    requires t.Match? && Encodable(t, lit, dist) && t.Distance() > |Expand(out, ts)|
    requires At(bs, c.p, Tokens(ts, lit, dist) + TokenBits(t, lit, dist))
    ensures BlockHuffman(bs, c, out, cap, lit, dist).st == ErrDistance
    ensures BlockHuffman(bs, c, out, cap, lit, dist).out == Expand(out, ts)
    decreases ts
  {
    hide Accepts, Encodable, TokenBits, ReadToken, Copy, LenBase, DistBase;
    if ts == [] {
      assert Tokens(ts, lit, dist) + TokenBits(t, lit, dist) == TokenBits(t, lit, dist);
      TokenReads(bs, c, t, lit, dist);
    } else {
      var head, rest := TokenBits(ts[0], lit, dist), Tokens(ts[1..], lit, dist);
      assert Tokens(ts, lit, dist) + TokenBits(t, lit, dist) == head + (rest + TokenBits(t, lit, dist));
      AtConcat(bs, c.p, head, rest + TokenBits(t, lit, dist));
      TokenReads(bs, c, ts[0], lit, dist);
      DistanceIsReported(bs, Cursor(c.p + |head|, false), Apply(out, ts[0]), cap, lit, dist, ts[1..], t);
    }
  }

  /** Tokens without an end of block. */
  function Tokens(ts: seq<Token>, lit: Lengths, dist: Lengths): seq<bool>
    requires forall t :: t in ts ==> Encodable(t, lit, dist)
  {
    if ts == [] then [] else TokenBits(ts[0], lit, dist) + Tokens(ts[1..], lit, dist)
  }

  /** The reserved block type is malformed, whatever follows. */
  lemma ReservedIsReported(bs: seq<bool>, p: nat, out: seq<byte>, cap: nat)
    requires p + 3 <= |bs| && |bs| % 8 == 0 && |out| <= cap && bs[p + 1] && bs[p + 2]
    ensures InflateFrom(bs, Cursor(p, false), out, cap) == Run(ErrFormat, Cursor(p + 3, false), out)
  {
    var c := Cursor(p + 1, false);
    assert GetBits(bs, 1, Cursor(p + 2, false)) == (1, Cursor(p + 3, false));
    assert GetBits(bs, 2, c) == (3, Cursor(p + 3, false));
  }

  /** So is a stored block whose second field is not the complement of the first. */
  lemma ComplementIsChecked(bs: seq<bool>, q: nat, out: seq<byte>, cap: nat, len: nat, nlen: nat)
    requires q + 32 <= |bs| && |out| <= cap && len < 0x10000 && nlen < 0x10000
    requires At(bs, q, BitsOf(len, 16)) && At(bs, q + 16, BitsOf(nlen, 16))
    ensures StoredAt(bs, q, false, out, cap).st == ErrFormat <==> nlen != 0xFFFF - len
  {
    hide BytesAt, GetBits;
    Pow2Values();
    GetBitsReads(bs, 16, Cursor(q, false), len);
    GetBitsReads(bs, 16, Cursor(q + 16, false), nlen);
  }
}
