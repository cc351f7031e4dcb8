/** DEFLATE written as a specification: which streams RFC 1951 lets a compressor
    produce for a list of blocks, and the bytes those blocks stand for. */
module Encoder {
  import opened Bits
  import opened Huffman
  import opened Deflate

  // ----- tokens

  /** A token whose symbols have codes and whose extra bits fit their fields. */
  predicate Encodable(t: Token, lit: Lengths, dist: Lengths) {
    match t
    case Lit(b) => b < |lit| && lit[b] > 0
    case Match(ls, le, ds, de) =>
      && t.Valid()
      && 257 + ls < |lit| && lit[257 + ls] > 0 && le < Pow2(LenExtra(ls))
      && ds < |dist| && dist[ds] > 0 && de < Pow2(DistExtra(ds))
  }

  function TokenBits(t: Token, lit: Lengths, dist: Lengths): seq<bool>
    requires Encodable(t, lit, dist)
  {
    match t
    case Lit(b) => SymbolBits(lit, b)
    case Match(ls, le, ds, de) =>
      SymbolBits(lit, 257 + ls) + (BitsOf(le, LenExtra(ls)) + (SymbolBits(dist, ds) + BitsOf(de, DistExtra(ds))))
  }

  /** The tokens of a block and its end-of-block symbol. */
  function TokensBits(ts: seq<Token>, lit: Lengths, dist: Lengths): seq<bool>
    requires 256 < |lit| && lit[256] > 0
    requires forall t :: t in ts ==> Encodable(t, lit, dist)
  {
    if ts == [] then SymbolBits(lit, 256)
    else TokenBits(ts[0], lit, dist) + TokensBits(ts[1..], lit, dist)
  }

  /** LZ77 expansion (RFC 1951 section 2): every match stays inside the output so far. */
  predicate InReach(out: seq<byte>, ts: seq<Token>)
    decreases ts
  {
    if ts == [] then true else
      && ts[0].Valid()
      && (ts[0].Match? ==> ts[0].Distance() <= |out|)
      && InReach(Apply(out, ts[0]), ts[1..])
  }

  function Apply(out: seq<byte>, t: Token): (r: seq<byte>)
    requires t.Valid() && (t.Match? ==> t.Distance() <= |out|)
    ensures |r| > |out|
  {
    match t
    case Lit(b) => out + [b]
    case Match(_, _, _, _) => Copy(out, t.Distance(), t.Length())
  }

  function Expand(out: seq<byte>, ts: seq<Token>): (r: seq<byte>)
    requires InReach(out, ts)
    ensures |r| >= |out|
    decreases ts
  {
    if ts == [] then out else Expand(Apply(out, ts[0]), ts[1..])
  }

  // ----- dynamic headers

  /** The tables of a dynamic block together with how they are transmitted. */
  datatype Header = Header(hclen: nat, clen: Lengths, items: seq<Item>, lit: Lengths, dist: Lengths)

  function ItemSymbol(it: Item): (r: nat)
    requires it.Len? ==> it.l <= 15
    ensures r < 19
  {
    match it
    case Len(l) => l
    case Repeat(_) => 16
    case Zeros(_) => 17
    case LongZeros(_) => 18
  }

  predicate ItemOk(it: Item, clen: Lengths)
    requires |clen| == 19
  {
    && (match it
        case Len(l) => l <= 15
        case Repeat(n) => 3 <= n <= 6
        case Zeros(n) => 3 <= n <= 10
        case LongZeros(n) => 11 <= n <= 138)
    && clen[ItemSymbol(it)] > 0
  }

  function ItemBits(it: Item, clen: Lengths): seq<bool>
    requires |clen| == 19 && ItemOk(it, clen)
  {
    SymbolBits(clen, ItemSymbol(it)) +
    match it
    case Len(_) => []
    case Repeat(n) => BitsOf(n - 3, 2)
    case Zeros(n) => BitsOf(n - 3, 3)
    case LongZeros(n) => BitsOf(n - 11, 7)
  }

  /** The instructions spell out `want` after `acc`; the first is never a repeat. */
  predicate Spells(items: seq<Item>, clen: Lengths, acc: Lengths, want: Lengths)
    requires |clen| == 19
    decreases items
  {
    if items == [] then acc == want else
      && ItemOk(items[0], clen)
      && (items[0].Repeat? ==> acc != [])
      && |acc + Expansion(items[0], acc)| <= |want|
      && Spells(items[1..], clen, acc + Expansion(items[0], acc), want)
  }

  function ItemsBits(items: seq<Item>, clen: Lengths): seq<bool>
    requires |clen| == 19 && forall it :: it in items ==> ItemOk(it, clen)
  {
    if items == [] then [] else ItemBits(items[0], clen) + ItemsBits(items[1..], clen)
  }

  lemma {:induction false} SpellsItemsOk(items: seq<Item>, clen: Lengths, acc: Lengths, want: Lengths)
    requires |clen| == 19 && Spells(items, clen, acc, want)
    ensures forall it :: it in items ==> ItemOk(it, clen)
    decreases items
  {
    if items != [] {
      SpellsItemsOk(items[1..], clen, acc + Expansion(items[0], acc), want);
    }
  }

  /** The code-length code's lengths `i..hclen`, three bits each. */
  function ClenBits(clen: Lengths, i: nat, hclen: nat): seq<bool>
    requires |clen| == 19 && i <= hclen <= 19
    decreases hclen - i
  {
    if i == hclen then [] else BitsOf(clen[ClenOrder(i)], 3) + ClenBits(clen, i + 1, hclen)
  }

  /** Lengths from position `i` on that are not transmitted are zero. */
  predicate ClenOk(clen: Lengths, hclen: nat) {
    && |clen| == 19 && 4 <= hclen <= 19 && Accepts(clen)
    && (forall k :: 0 <= k < 19 ==> clen[k] < 8)
    && (forall i :: hclen <= i < 19 ==> clen[ClenOrder(i)] == 0)
  }

  predicate HeaderOk(h: Header) {
    && ClenOk(h.clen, h.hclen)
    && 257 <= |h.lit| <= 286 && 1 <= |h.dist| <= 30
    && h.lit[256] > 0 && Accepts(h.lit) && Accepts(h.dist)
    && Spells(h.items, h.clen, [], h.lit + h.dist)
  }

  function HeaderBits(h: Header): seq<bool>
    requires HeaderOk(h)
  {
    SpellsItemsOk(h.items, h.clen, [], h.lit + h.dist);
    BitsOf(|h.lit| - 257, 5) + (BitsOf(|h.dist| - 1, 5) + (BitsOf(h.hclen - 4, 4) +
    (ClenBits(h.clen, 0, h.hclen) + ItemsBits(h.items, h.clen))))
  }

  // ----- blocks and streams

  /** A stored block's padding to the byte boundary may hold any bits. */
  datatype Block =
    | Stored(pad: seq<bool>, data: seq<byte>)
    | Fixed(ts: seq<Token>)
    | Dynamic(h: Header, ts: seq<Token>)

  function Kind(b: Block): (r: nat)
    ensures r < 3
  {
    match b
    case Stored(_, _) => 0
    case Fixed(_) => 1
    case Dynamic(_, _) => 2
  }

  /** A well-formed block whose body starts at bit `p` and follows output `out`. */
  predicate BlockOk(p: nat, out: seq<byte>, b: Block) {
    match b
    case Stored(pad, data) => p + |pad| == 8 * ((p + 7) / 8) && |data| <= 0xFFFF
    case Fixed(ts) => (forall t :: t in ts ==> Encodable(t, FixedLit(), FixedDist())) && InReach(out, ts)
    case Dynamic(h, ts) => HeaderOk(h) && (forall t :: t in ts ==> Encodable(t, h.lit, h.dist)) && InReach(out, ts)
  }

  /** A stored block's fields and data. */
  function StoredBits(data: seq<byte>): (r: seq<bool>)
    requires |data| <= 0xFFFF
    ensures |r| == 32 + 8 * |data|
  {
    BitsOf(|data|, 16) + (BitsOf(0xFFFF - |data|, 16) + ByteBits(data))
  }

  function BodyBits(p: nat, out: seq<byte>, b: Block): seq<bool>
    requires BlockOk(p, out, b)
  {
    match b
    case Stored(pad, data) => pad + StoredBits(data)
    case Fixed(ts) => TokensBits(ts, FixedLit(), FixedDist())
    case Dynamic(h, ts) => HeaderBits(h) + TokensBits(ts, h.lit, h.dist)
  }

  /** The output after a block. */
  function BlockMeaning(p: nat, out: seq<byte>, b: Block): (r: seq<byte>)
    requires BlockOk(p, out, b)
    ensures |r| >= |out|
  {
    match b
    case Stored(_, data) => out + data
    case Fixed(ts) => Expand(out, ts)
    case Dynamic(_, ts) => Expand(out, ts)
  }

  /** A block at bit `p`: final-block flag, type, body. */
  function BlockBits(p: nat, out: seq<byte>, b: Block, final: bool): (r: seq<bool>)
    requires BlockOk(p + 3, out, b)
    ensures |r| == 3 + |BodyBits(p + 3, out, b)|
  {
    [final] + (BitsOf(Kind(b), 2) + BodyBits(p + 3, out, b))
  }

  /** Where the block after `b` starts. */
  function After(p: nat, out: seq<byte>, b: Block): nat
    requires BlockOk(p + 3, out, b)
  {
    p + 3 + |BodyBits(p + 3, out, b)|
  }

  predicate StreamOk(p: nat, out: seq<byte>, blocks: seq<Block>)
    decreases blocks
  {
    && blocks != []
    && BlockOk(p + 3, out, blocks[0])
    && (|blocks| > 1 ==> StreamOk(After(p, out, blocks[0]), BlockMeaning(p + 3, out, blocks[0]), blocks[1..]))
  }

  function StreamBits(p: nat, out: seq<byte>, blocks: seq<Block>): seq<bool>
    requires StreamOk(p, out, blocks)
    decreases blocks
  {
    hide BlockOk, BodyBits, BlockBits, BlockMeaning;
    var b := blocks[0];
    if |blocks| == 1 then BlockBits(p, out, b, true) else
      BlockBits(p, out, b, false) + StreamBits(After(p, out, b), BlockMeaning(p + 3, out, b), blocks[1..])
  }

  function StreamMeaning(p: nat, out: seq<byte>, blocks: seq<Block>): (r: seq<byte>)
    requires StreamOk(p, out, blocks)
    ensures |r| >= |out|
    decreases blocks
  {
    var next := BlockMeaning(p + 3, out, blocks[0]);
    if |blocks| == 1 then next
    else StreamMeaning(After(p, out, blocks[0]), next, blocks[1..])
  }
}
