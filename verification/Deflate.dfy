/** What inflate.c computes on a bit stream, as functions. Every branch, error and
    limit of the C decoder is here; Inflate.dfy proves the imperative decoder equal
    to these functions and RoundTrip.dfy relates them to an encoder. */
module Deflate {
  import opened Bits
  import opened Huffman

  datatype Status = Ok | ErrInput | ErrOutput | ErrFormat | ErrDistance | ErrHeader | ErrAdler

  /** How a block (or the whole stream) ended, where the reader stands, and the output. */
  datatype Run = Run(st: Status, cur: Cursor, out: seq<byte>)

  // ----- the length and distance alphabets (RFC 1951 section 3.2.5)

  function LenBase(i: nat): (r: nat)
    requires i < 29
    ensures 3 <= r <= 258
  {
    [3, 4, 5, 6, 7, 8, 9, 10, 11, 13, 15, 17, 19, 23, 27, 31,
     35, 43, 51, 59, 67, 83, 99, 115, 131, 163, 195, 227, 258][i]
  }

  function LenExtra(i: nat): (r: nat)
    requires i < 29
    ensures r <= 5
  {
    [0, 0, 0, 0, 0, 0, 0, 0, 1, 1, 1, 1, 2, 2, 2, 2,
     3, 3, 3, 3, 4, 4, 4, 4, 5, 5, 5, 5, 0][i]
  }

  function DistBase(i: nat): (r: nat)
    requires i < 30
    ensures 1 <= r <= 24577
  {
    [1, 2, 3, 4, 5, 7, 9, 13, 17, 25, 33, 49, 65, 97, 129, 193,
     257, 385, 513, 769, 1025, 1537, 2049, 3073, 4097, 6145,
     8193, 12289, 16385, 24577][i]
  }

  function DistExtra(i: nat): (r: nat)
    requires i < 30
    ensures r <= 13
  {
    [0, 0, 0, 0, 1, 1, 2, 2, 3, 3, 4, 4, 5, 5, 6, 6,
     7, 7, 8, 8, 9, 9, 10, 10, 11, 11, 12, 12, 13, 13][i]
  }

  function ClenOrder(i: nat): (r: nat)
    requires i < 19
    ensures r < 19
  {
    [16, 17, 18, 0, 8, 7, 9, 6, 10, 5, 11, 4, 12, 3, 13, 2, 14, 1, 15][i]
  }

  /** The tables are those of RFC 1951 section 3.2.5: eight lengths without extra bits, then
      four symbols for each number of extra bits, and 258 by itself; four distances
      without extra bits, then two symbols for each number. */
  lemma LengthRule(i: nat)
    requires i < 29
    ensures LenExtra(i) == if i < 8 || i == 28 then 0 else i / 4 - 1
    ensures LenBase(i) == if i < 8 then 3 + i else if i == 28 then 258 else 3 + (4 + i % 4) * Pow2(LenExtra(i))
  {
    hide Pow2;
    LengthExtras(i);
    hide LenExtra;
    Pow2Values();
    assert Pow2(0) == 1 by { PowerOfNone(); }
  }

  lemma LengthExtras(i: nat)
    requires i < 29
    ensures LenExtra(i) == if i < 8 || i == 28 then 0 else i / 4 - 1
  {
  }

  lemma DistanceRule(i: nat)
    requires i < 30
    ensures DistExtra(i) == if i < 4 then 0 else i / 2 - 1
    ensures DistBase(i) == if i < 4 then 1 + i else 1 + (2 + i % 2) * Pow2(DistExtra(i))
  {
    hide Pow2;
    DistanceExtras(i);
    hide DistExtra;
    Pow2Values();
    Powers();
  }

  lemma DistanceExtras(i: nat)
    requires i < 30
    ensures DistExtra(i) == if i < 4 then 0 else i / 2 - 1
  {
  }

  lemma PowerOfNone()
    ensures Pow2(0) == 1
  {
  }

  lemma Powers()
    ensures Pow2(0) == 1 && Pow2(6) == 64
    ensures Pow2(9) == 512 && Pow2(10) == 1024 && Pow2(11) == 2048 && Pow2(12) == 4096 && Pow2(13) == 8192
  {
    assert Pow2(6) == 64;
    assert Pow2(9) == 512;
    assert Pow2(11) == 2048;
  }

  /** Code-length lengths are sent (RFC 1951 section 3.2.7) with the run escapes first, then
      0, then the lengths from 8 on upwards and from 7 on downwards by turns. */
  lemma ClenOrderRule(i: nat)
    requires i < 19
    ensures ClenOrder(i) == if i < 3 then 16 + i else if i == 3 then 0
                            else if i % 2 == 0 then 8 + (i - 4) / 2 else 7 - (i - 5) / 2
  {
  }

  /** Where symbol `s` stands in that order. */
  function ClenPos(s: nat): (i: nat)
    requires s < 19
    ensures i < 19
  {
    [3, 17, 15, 13, 11, 9, 7, 5, 4, 6, 8, 10, 12, 14, 16, 18, 0, 1, 2][s]
  }

  lemma ClenOrderIsPermutation(i: nat)
    requires i < 19
    ensures ClenOrder(ClenPos(i)) == i && ClenPos(ClenOrder(i)) == i
  {
  }

  // ----- tokens

  /** A literal byte, or a match given by its length and distance symbols and
      the value of their extra bits. */
  datatype Token =
    | Lit(b: byte)
    | Match(ls: nat, le: nat, ds: nat, de: nat)
  {
    predicate Valid() {
      Match? ==> ls < 29 && ds < 30
    }

    function Length(): (r: nat)
      requires Match? && Valid()
      ensures r >= 3
    {
      LenBase(ls) + le
    }

    function Distance(): (r: nat)
      requires Match? && Valid()
      ensures r >= 1
    {
      DistBase(ds) + de
    }
  }

  datatype Symbol = Bad(st: Status) | EndOfBlock | Tok(t: Token)

  /** One turn of the loop in block_huffman, up to the output. */
  function ReadToken(bs: seq<bool>, c: Cursor, lit: Lengths, dist: Lengths): (r: (Symbol, Cursor))
    requires c.p <= |bs|
    ensures c.p <= r.1.p <= |bs|
    ensures r.0.Tok? ==> r.1.p > c.p && r.0.t.Valid()
    ensures r.0.EndOfBlock? ==> !r.1.overrun
    ensures r.0.Bad? ==> r.0.st != Ok
  {
    var (sym, c1) := Decode(bs, c, lit);
    if c1.overrun then (Bad(ErrInput), c1)
    else if sym < 0 then (Bad(ErrFormat), c1)
    else if sym < 256 then (Tok(Lit(sym)), c1)
    else if sym == 256 then (EndOfBlock, c1)
    else if sym - 257 >= 29 then (Bad(ErrFormat), c1)
    else ReadMatch(bs, c1, sym - 257, dist)
  }

  /** The rest of a match, after its length symbol. */
  function ReadMatch(bs: seq<bool>, c: Cursor, ls: nat, dist: Lengths): (r: (Symbol, Cursor))
    requires c.p <= |bs| && ls < 29
    ensures c.p <= r.1.p <= |bs|
    ensures r.0.Tok? ==> r.0.t.Valid()
    ensures !r.0.EndOfBlock?
    ensures r.0.Bad? ==> r.0.st != Ok
  {
    var (le, c1) := GetBits(bs, LenExtra(ls), c);
    var (ds, c2) := Decode(bs, c1, dist);
    if c2.overrun then (Bad(ErrInput), c2)
    else if ds < 0 || ds >= 30 then (Bad(ErrFormat), c2)
    else
      var (de, c3) := GetBits(bs, DistExtra(ds), c2);
      (Tok(Match(ls, le, ds, de)), c3)
  }

  /** `n` bytes, each the one `dist` back from the end of the output so far. */
  function Copy(out: seq<byte>, dist: nat, n: nat): (r: seq<byte>)
    requires 1 <= dist <= |out|
    ensures |r| == |out| + n
    ensures out <= r
    decreases n
  {
    if n == 0 then out else Copy(out + [out[|out| - dist]], dist, n - 1)
  }

  /** A match is the periodic extension of the output it points back into, whether
      or not the copy overlaps itself (RFC 1951 section 3.2.3). */
  lemma {:induction false} CopyIsPeriodic(out: seq<byte>, dist: nat, n: nat, i: nat)
    requires 1 <= dist <= |out| && i < n
    ensures Copy(out, dist, n)[|out| + i] == out[|out| - dist + i % dist]
    decreases n
  {
    var next := out + [out[|out| - dist]];
    if i > 0 {
      CopyIsPeriodic(next, dist, n - 1, i - 1);
      ModStep(i, dist);
    } else {
      assert next <= Copy(next, dist, n - 1);
      assert 0 % dist == 0;
    }
  }

  lemma ModStep(i: nat, d: nat)
    requires i > 0 && d > 0
    ensures i % d == (if (i - 1) % d + 1 == d then 0 else (i - 1) % d + 1)
  {
    var q, r := (i - 1) / d, (i - 1) % d;
    assert i == q * d + (r + 1);
    if r + 1 == d {
      assert i == (q + 1) * d;
      ModUnique(i, d, q + 1, 0);
    } else {
      ModUnique(i, d, q, r + 1);
    }
  }

  lemma ModUnique(i: nat, d: nat, q: nat, r: nat)
    requires r < d && i == q * d + r
    ensures i % d == r
  {
    var q' := i / d;
    if q > q' {
      MulGap(q, q', d);
    } else if q < q' {
      MulGap(q', q, d);
    }
  }

  lemma MulGap(a: nat, b: nat, d: nat)
    requires a > b
    ensures a * d >= b * d + d
  {
    assert a * d == b * d + (a - b) * d;
    assert (a - b) * d == d + (a - b - 1) * d;
  }

  /** `block_huffman`. */
  function BlockHuffman(bs: seq<bool>, c: Cursor, out: seq<byte>, cap: nat, lit: Lengths, dist: Lengths): (r: Run)
    requires c.p <= |bs| && |out| <= cap
    ensures c.p <= r.cur.p <= |bs| && out <= r.out && |r.out| <= cap
    ensures r.st == Ok ==> !r.cur.overrun && r.cur.p > c.p
    decreases |bs| - c.p
  {
    var (sym, c1) := ReadToken(bs, c, lit, dist);
    match sym
    case Bad(st) => Run(st, c1, out)
    case EndOfBlock => Run(Ok, c1, out)
    case Tok(Lit(b)) =>
      if |out| >= cap then Run(ErrOutput, c1, out)
      else BlockHuffman(bs, c1, out + [b], cap, lit, dist)
    case Tok(t) =>
      if t.Distance() > |out| then Run(ErrDistance, c1, out)
      else if |out| + t.Length() > cap then Run(ErrOutput, c1, Copy(out, t.Distance(), cap - |out|))
      else BlockHuffman(bs, c1, Copy(out, t.Distance(), t.Length()), cap, lit, dist)
  }

  // ----- stored blocks (RFC 1951 section 3.2.4)

  function BytesAt(bs: seq<bool>, p: nat, n: nat): (r: seq<byte>)
    ensures |r| == n
    decreases n
  {
    assert Pow2(8) == 256 by { Pow2Values(); }
    if n == 0 then [] else [GetBits(bs, 8, Cursor(p, false)).0] + BytesAt(bs, p + 8, n - 1)
  }

  lemma {:induction false} BytesAtReads(bs: seq<bool>, p: nat, t: seq<byte>)
    requires At(bs, p, ByteBits(t))
    ensures BytesAt(bs, p, |t|) == t
    decreases |t|
  {
    if t != [] {
      AtConcat(bs, p, BitsOf(t[0], 8), ByteBits(t[1..]));
      Pow2Values();
      GetBitsReads(bs, 8, Cursor(p, false), t[0]);
      BytesAtReads(bs, p + 8, t[1..]);
    }
  }

  lemma {:induction false} BytesAtSound(bs: seq<bool>, p: nat, n: nat)
    requires p + 8 * n <= |bs|
    ensures At(bs, p, ByteBits(BytesAt(bs, p, n)))
    decreases n
  {
    if n > 0 {
      GetBitsInRange(bs, 8, Cursor(p, false));
      GetBitsSound(bs, 8, Cursor(p, false));
      BytesAtSound(bs, p + 8, n - 1);
      var t := BytesAt(bs, p, n);
      AtConcat(bs, p, BitsOf(t[0], 8), ByteBits(t[1..]));
    }
  }

  lemma {:induction false} GetBitsInRange(bs: seq<bool>, n: nat, c: Cursor)
    requires c.p + n <= |bs|
    ensures GetBits(bs, n, c).1 == Cursor(c.p + n, c.overrun)
  {
    if n > 0 {
      GetBitsInRange(bs, n - 1, Cursor(c.p + 1, c.overrun));
    }
  }

  /** A 16-bit field is two bytes, low byte first. */
  lemma FieldIsTwoBytes(lo: byte, hi: byte)
    ensures lo + 256 * hi < Pow2(16) && BitsOf(lo + 256 * hi, 16) == ByteBits([lo, hi])
  {
    Pow2Values();
    BitsOfJoin(lo, hi, 8, 8);
    assert ByteBits([lo, hi]) == BitsOf(lo, 8) + BitsOf(hi, 8) by {
      assert [lo, hi][1..] == [hi] && [hi][1..] == [];
      assert ByteBits([hi]) == BitsOf(hi, 8) + [];
    }
  }

  lemma {:induction false} BitsOfJoin(lo: nat, hi: nat, a: nat, b: nat)
    requires lo < Pow2(a)
    ensures BitsOf(lo + Pow2(a) * hi, a + b) == BitsOf(lo, a) + BitsOf(hi, b)
    decreases a
  {
    if a > 0 {
      BitsOfJoin(lo / 2, hi, a - 1, b);
      JoinHalves(lo, hi, a);
    }
  }

  lemma JoinHalves(lo: nat, hi: nat, a: nat)
    requires a > 0
    ensures var v := lo + Pow2(a) * hi; v % 2 == lo % 2 && v / 2 == lo / 2 + Pow2(a - 1) * hi
  {
    var half := Pow2(a - 1) * hi;
    assert Pow2(a) * hi == 2 * half;
    TwiceMore(lo, half);
  }

  lemma TwiceMore(lo: nat, half: nat)
    ensures (lo + 2 * half) % 2 == lo % 2 && (lo + 2 * half) / 2 == lo / 2 + half
  {
  }

  /** A stored block's fields and data, from the byte boundary `q` on. */
  function StoredAt(bs: seq<bool>, q: nat, overrun: bool, out: seq<byte>, cap: nat): (r: Run)
    requires q <= |bs| && |out| <= cap
    ensures q <= r.cur.p <= |bs| && out <= r.out && |r.out| <= cap
    ensures r.cur.overrun == overrun
  {
    if q + 32 > |bs| then Run(ErrInput, Cursor(q, overrun), out)
    else
      var len := GetBits(bs, 16, Cursor(q, false)).0;
      var nlen := GetBits(bs, 16, Cursor(q + 16, false)).0;
      var c1 := Cursor(q + 32, overrun);
      if len + nlen != 0xFFFF then Run(ErrFormat, c1, out)
      else if q + 32 + 8 * len > |bs| then Run(ErrInput, c1, out)
      else if |out| + len > cap then Run(ErrOutput, c1, out)
      else Run(Ok, Cursor(q + 32 + 8 * len, overrun), out + BytesAt(bs, q + 32, len))
  }

  /** `block_stored`: the reader first drops the rest of the current byte. */
  function BlockStored(bs: seq<bool>, c: Cursor, out: seq<byte>, cap: nat): (r: Run)
    requires c.p <= |bs| && |bs| % 8 == 0 && |out| <= cap
    ensures c.p <= r.cur.p <= |bs| && out <= r.out && |r.out| <= cap
    ensures r.cur.overrun == c.overrun
  {
    StoredAt(bs, 8 * ((c.p + 7) / 8), c.overrun, out, cap)
  }

  // ----- dynamic blocks (RFC 1951 section 3.2.7)

  /** Reads the code-length code's lengths `i..hclen` in their peculiar order. */
  function ReadClen(bs: seq<bool>, c: Cursor, i: nat, hclen: nat, acc: Lengths): (r: (Lengths, Cursor))
    requires c.p <= |bs| && i <= hclen <= 19 && |acc| == 19
    ensures |r.0| == 19 && c.p <= r.1.p <= |bs|
    ensures c.overrun ==> r.1.overrun
    decreases hclen - i
  {
    if i == hclen then (acc, c) else
      var (v, c1) := GetBits(bs, 3, c);
      assert Pow2(3) == 8 by { Pow2Values(); }
      ReadClen(bs, c1, i + 1, hclen, acc[ClenOrder(i) := v])
  }

  /** One code-length instruction: a length, or one of the three run escapes
      (copy the previous length, or a short or long run of zeros). */
  datatype Item = Len(l: nat) | Repeat(n: nat) | Zeros(n: nat) | LongZeros(n: nat)

  function Replicate(v: nat, n: nat): (r: seq<nat>)
    ensures |r| == n && forall i :: 0 <= i < n ==> r[i] == v
  {
    seq(n, i => v)
  }

  /** What an instruction appends, given the lengths so far. */
  function Expansion(it: Item, acc: Lengths): (r: Lengths)
    requires it.Len? ==> it.l <= 15
    requires it.Repeat? ==> acc != []
  {
    match it
    case Len(l) => [l]
    case Repeat(n) => Replicate(acc[|acc| - 1], n)
    case Zeros(n) => Replicate(0, n)
    case LongZeros(n) => Replicate(0, n)
  }

  /** An instruction adds as many lengths as it says: its own length, the last one again, or
      zeros. */
  lemma ExpansionIs(it: Item, acc: Lengths, k: nat)
    requires (it.Len? ==> it.l <= 15) && (it.Repeat? ==> acc != [])
    ensures |Expansion(it, acc)| == if it.Len? then 1 else it.n
    ensures k < |Expansion(it, acc)| ==>
              Expansion(it, acc)[k] == if it.Len? then it.l else if it.Repeat? then acc[|acc| - 1] else 0
  {
  }

  datatype ItemResult = BadItem(st: Status) | Good(it: Item)

  /** One turn of the length-reading loop, before its bound check. */
  function ReadItem(bs: seq<bool>, c: Cursor, clen: Lengths, first: bool): (r: (ItemResult, Cursor))
    requires c.p <= |bs| && |clen| == 19
    ensures c.p <= r.1.p <= |bs|
    ensures r.0.Good? ==> r.1.p > c.p && (r.0.it.Len? ==> r.0.it.l <= 15) && (r.0.it.Repeat? ==> !first)
    ensures r.0.BadItem? ==> r.0.st != Ok
    ensures c.overrun ==> r.1.overrun
  {
    var (sym, c1) := Decode(bs, c, clen);
    if c1.overrun then (BadItem(ErrInput), c1)
    else if sym < 0 then (BadItem(ErrFormat), c1)
    else if sym < 16 then (Good(Len(sym)), c1)
    else if sym == 16 then
      if first then (BadItem(ErrFormat), c1)
      else var (e, c2) := GetBits(bs, 2, c1); (Good(Repeat(3 + e)), c2)
    else if sym == 17 then var (e, c2) := GetBits(bs, 3, c1); (Good(Zeros(3 + e)), c2)
    else var (e, c2) := GetBits(bs, 7, c1); (Good(LongZeros(11 + e)), c2)
  }

  datatype LengthsRun = LengthsRun(st: Status, cur: Cursor, acc: Lengths)

  /** Fills `acc` up to `total` lengths; a run may straddle the two alphabets. */
  function ReadLengths(bs: seq<bool>, c: Cursor, clen: Lengths, acc: Lengths, total: nat): (r: LengthsRun)
    requires c.p <= |bs| && |clen| == 19 && |acc| <= total
    ensures c.p <= r.cur.p <= |bs| && acc <= r.acc && |r.acc| <= total
    ensures r.st == Ok ==> |r.acc| == total
    ensures c.overrun ==> r.cur.overrun
    decreases |bs| - c.p
  {
    if |acc| == total then LengthsRun(Ok, c, acc) else
      var (res, c1) := ReadItem(bs, c, clen, acc == []);
      if res.BadItem? then LengthsRun(res.st, c1, acc)
      else
        var more := Expansion(res.it, acc);
        if |acc| + |more| > total then LengthsRun(ErrFormat, c1, acc)
        else ReadLengths(bs, c1, clen, acc + more, total)
  }

  /** The lengths of both alphabets, `hlit` of them for literals, or an error. */
  datatype HeaderRun = NoHeader(st: Status, cur: Cursor) | AllLengths(hlit: nat, acc: Lengths, cur: Cursor)

  function ReadHeader(bs: seq<bool>, c: Cursor): (r: HeaderRun)
    requires c.p <= |bs|
    ensures c.p <= r.cur.p <= |bs|
    ensures r.NoHeader? ==> r.st != Ok
    ensures r.AllLengths? ==> 257 <= r.hlit <= 286 && 1 <= |r.acc| - r.hlit <= 30
  {
    var (a, c1) := GetBits(bs, 5, c);
    var (b, c2) := GetBits(bs, 5, c1);
    var (d, c3) := GetBits(bs, 4, c2);
    assert Pow2(4) == 16 by { Pow2Values(); }
    var hlit, hdist, hclen := a + 257, b + 1, d + 4;
    if hlit > 286 || hdist > 30 then NoHeader(ErrFormat, c3) else
      var (clen, c4) := ReadClen(bs, c3, 0, hclen, Replicate(0, 19));
      if c4.overrun then NoHeader(ErrInput, c4)
      else if !Accepts(clen) then NoHeader(ErrFormat, c4)
      else
        var run := ReadLengths(bs, c4, clen, [], hlit + hdist);
        if run.st != Ok then NoHeader(run.st, run.cur) else AllLengths(hlit, run.acc, run.cur)
  }

  /** The tables a dynamic block opens with, or the error they stop at. */
  datatype Tables = NoTables(st: Status, cur: Cursor) | Tables(lit: Lengths, dist: Lengths, cur: Cursor)

  function ReadTables(bs: seq<bool>, c: Cursor): (r: Tables)
    requires c.p <= |bs|
    ensures c.p <= r.cur.p <= |bs|
    ensures r.NoTables? ==> r.st != Ok
    ensures r.Tables? ==> 257 <= |r.lit| <= 286 && 1 <= |r.dist| <= 30 && r.lit[256] > 0
    ensures r.Tables? ==> Accepts(r.lit) && Accepts(r.dist)
  {
    match ReadHeader(bs, c)
    case NoHeader(st, c1) => NoTables(st, c1)
    case AllLengths(hlit, acc, c1) =>
      if acc[256] == 0 then NoTables(ErrFormat, c1)
      else if !Accepts(acc[..hlit]) then NoTables(ErrFormat, c1)
      else if !Accepts(acc[hlit..]) then NoTables(ErrFormat, c1)
      else Tables(acc[..hlit], acc[hlit..], c1)
  }

  function BlockDynamic(bs: seq<bool>, c: Cursor, out: seq<byte>, cap: nat): (r: Run)
    requires c.p <= |bs| && |out| <= cap
    ensures c.p <= r.cur.p <= |bs| && out <= r.out && |r.out| <= cap
  {
    match ReadTables(bs, c)
    case NoTables(st, c1) => Run(st, c1, out)
    case Tables(lit, dist, c1) => BlockHuffman(bs, c1, out, cap, lit, dist)
  }

  // ----- the stream

  /** RFC 1951 section 3.2.6. */
  function FixedLit(): (r: Lengths)
    ensures |r| == 288
  {
    seq(288, i => if i < 144 then 8 else if i < 256 then 9 else if i < 280 then 7 else 8)
  }

  function FixedDist(): (r: Lengths)
    ensures |r| == 30
  {
    seq(30, i => 5)
  }

  function BlockOfKind(bs: seq<bool>, kind: nat, c: Cursor, out: seq<byte>, cap: nat): (r: Run)
    requires c.p <= |bs| && |bs| % 8 == 0 && |out| <= cap
    ensures c.p <= r.cur.p <= |bs| && out <= r.out && |r.out| <= cap
  {
    if kind == 0 then BlockStored(bs, c, out, cap)
    else if kind == 1 then BlockHuffman(bs, c, out, cap, FixedLit(), FixedDist())
    else if kind == 2 then BlockDynamic(bs, c, out, cap)
    else Run(ErrFormat, c, out)
  }

  /** The loop of inf_inflate. */
  function InflateFrom(bs: seq<bool>, c: Cursor, out: seq<byte>, cap: nat): (r: Run)
    requires c.p <= |bs| && |bs| % 8 == 0 && |out| <= cap
    ensures c.p <= r.cur.p <= |bs| && out <= r.out && |r.out| <= cap
    ensures r.st == Ok ==> !r.cur.overrun
    decreases |bs| - c.p
  {
    var (final, c1) := GetBit(bs, c);
    var (kind, c2) := GetBits(bs, 2, c1);
    if c2.overrun then Run(ErrInput, c2, out)
    else
      var r := BlockOfKind(bs, kind, c2, out, cap);
      if r.st != Ok then r
      else if r.cur.overrun then Run(ErrInput, r.cur, r.out)
      else if final then r
      else InflateFrom(bs, r.cur, r.out, cap)
  }

  /** `inf_inflate` on a byte sequence. */
  function Inflate(src: seq<byte>, cap: nat): (r: Run)
    ensures r.cur.p <= 8 * |src| && |r.out| <= cap
    ensures r.st == Ok ==> !r.cur.overrun
  {
    InflateFrom(ByteBits(src), Cursor(0, false), [], cap)
  }
}
