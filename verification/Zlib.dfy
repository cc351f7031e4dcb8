/** The zlib wrapper (RFC 1950): header test, Adler-32, and what the trailer check buys. */
module Zlib {
  import opened Bits
  import opened Deflate
  import opened Encoder
  import opened RoundTrip
  import opened Soundness
  import opened InflateImpl

  const ADLER_MOD: nat := 65521

  /** Sum of the first `n` bytes. */
  function ByteSum(data: seq<byte>, n: nat): nat
    requires n <= |data|
    decreases data, n
  {
    if n == 0 then 0 else ByteSum(data, n - 1) + data[n - 1]
  }

  /** The first `k` bytes weighted by their distance from the end of a run of `n`. */
  function Weighted(data: seq<byte>, n: nat, k: nat): nat
    requires k <= n <= |data|
    decreases data, k
  {
    if k == 0 then 0 else Weighted(data, n, k - 1) + (n - (k - 1)) * data[k - 1]
  }

  /** Adler-32 as RFC 1950 section 2.2 defines it. */
  function Adler(data: seq<byte>): (r: nat)
    ensures r < 0x1_0000_0000
  {
    var n := |data|;
    (n + Weighted(data, n, n)) % ADLER_MOD * 0x10000 + (1 + ByteSum(data, n)) % ADLER_MOD
  }

  lemma {:induction false} WeightedGrows(data: seq<byte>, n: nat, k: nat)
    requires k <= n < |data|
    ensures Weighted(data, n + 1, k) == Weighted(data, n, k) + ByteSum(data, k)
    decreases data, k
  {
    if k > 0 {
      WeightedGrows(data, n, k - 1);
      var d := data[k - 1];
      assert (n + 1 - (k - 1)) * d == (n - (k - 1)) * d + d;
    }
  }

  lemma WeightedStep(data: seq<byte>, i: nat)
    requires i < |data|
    ensures Weighted(data, i + 1, i + 1) == Weighted(data, i, i) + ByteSum(data, i + 1)
  {
    WeightedGrows(data, i, i);
    assert (i + 1 - i) * data[i] == data[i];
  }

  lemma AdlerStart(data: seq<byte>)
    ensures ByteSum(data, 0) == 0 == Weighted(data, 0, 0)
    ensures forall i :: 0 <= i < |data| ==> ByteSum(data, i + 1) == ByteSum(data, i) + data[i]
  {
  }

  lemma ModAdds(x: nat, y: nat)
    ensures (x % ADLER_MOD + y) % ADLER_MOD == (x + y) % ADLER_MOD
  {
  }

  /** `inf_adler32`: the running sums reduced at every byte give the defined value. */
  method Adler32(data: seq<byte>) returns (r: nat)
    ensures r == Adler(data)
  {
    hide ByteSum, Weighted;
    AdlerStart(data);
    var a: nat, b: nat := 1, 0;
    for i := 0 to |data|
      invariant a == (1 + ByteSum(data, i)) % ADLER_MOD
      invariant b == (i + Weighted(data, i, i)) % ADLER_MOD
    {
      WeightedStep(data, i);
      ModAdds(1 + ByteSum(data, i), data[i]);
      ModAdds(i + Weighted(data, i, i), (1 + ByteSum(data, i + 1)) % ADLER_MOD);
      ModAdds(1 + ByteSum(data, i + 1), i + Weighted(data, i, i));
      a := (a + data[i]) % ADLER_MOD;
      b := (b + a) % ADLER_MOD;
    }
    r := b * 0x10000 + a;
  }

  lemma {:induction false} SumsOfZeros(data: seq<byte>, n: nat, k: nat)
    requires k <= n <= |data| && forall i :: 0 <= i < |data| ==> data[i] == 0
    ensures ByteSum(data, k) == 0 == Weighted(data, n, k)
    decreases k
  {
    if k > 0 {
      SumsOfZeros(data, n, k - 1);
    }
  }

  /** The first sum starts at one, the second counts the bytes, both modulo 65521. */
  lemma AdlerOfZeros(data: seq<byte>)
    requires forall i :: 0 <= i < |data| ==> data[i] == 0
    ensures Adler(data) == |data| % 65521 * 0x10000 + 1
  {
    SumsOfZeros(data, |data|, |data|);
  }

  /** The checksum of "abc". */
  lemma AdlerOfAbc()
    ensures Adler([0x61, 0x62, 0x63]) == 0x024D_0127
  {
    var data: seq<byte> := [0x61, 0x62, 0x63];
    assert ByteSum(data, 1) == 0x61 && ByteSum(data, 2) == 0xC3 && ByteSum(data, 3) == 0x126;
    assert Weighted(data, 3, 1) == 0x123 && Weighted(data, 3, 2) == 0x1E7 && Weighted(data, 3, 3) == 0x24A;
  }

  // ----- what the checksum detects

  lemma {:induction false} ByteSumOfUpdate(data: seq<byte>, i: nat, v: byte, n: nat)
    requires i < |data| && n <= |data|
    ensures ByteSum(data[i := v], n) == ByteSum(data, n) + if i < n then v - data[i] else 0
    decreases n
  {
    if n > 0 {
      ByteSumOfUpdate(data, i, v, n - 1);
    }
  }

  lemma {:induction false} WeightedOfUpdate(data: seq<byte>, i: nat, v: byte, n: nat, k: nat)
    requires i < |data| && k <= n <= |data|
    ensures Weighted(data[i := v], n, k) == Weighted(data, n, k) + if i < k then (n - i) * (v - data[i]) else 0
    decreases k
  {
    if k > 0 {
      WeightedOfUpdate(data, i, v, n, k - 1);
      if i == k - 1 {
        assert (n - i) * v == (n - i) * data[i] + (n - i) * (v - data[i]);
      }
    }
  }

  /** Changing one byte changes the checksum. */
  lemma AdlerDetectsByteChange(data: seq<byte>, i: nat, v: byte)
    requires i < |data| && v != data[i]
    ensures Adler(data[i := v]) != Adler(data)
  {
    var n := |data|;
    ByteSumOfUpdate(data, i, v, n);
    HalvesDiffer(n + Weighted(data, n, n), 1 + ByteSum(data, n),
      n + Weighted(data[i := v], n, n), 1 + ByteSum(data[i := v], n));
  }

  function Swapped(data: seq<byte>, i: nat): seq<byte>
    requires i + 1 < |data|
  {
    data[i := data[i + 1]][i + 1 := data[i]]
  }

  /** Exchanging two different neighbours changes the checksum. */
  lemma AdlerDetectsSwap(data: seq<byte>, i: nat)
    requires i + 1 < |data| && data[i] != data[i + 1]
    ensures Adler(Swapped(data, i)) != Adler(data)
  {
    var n, x: byte, y: byte := |data|, data[i], data[i + 1];
    var once := data[i := y];
    WeightedOfUpdate(data, i, y, n, n);
    WeightedOfUpdate(once, i + 1, x, n, n);
    Telescopes(n - i, x, y);
    HalvesDiffer(n + Weighted(data, n, n), 1 + ByteSum(data, n),
      n + Weighted(Swapped(data, i), n, n), 1 + ByteSum(Swapped(data, i), n));
  }

  lemma Telescopes(m: int, x: int, y: int)
    ensures m * (y - x) + (m - 1) * (x - y) == y - x
  {
  }

  lemma HalvesDiffer(b: nat, a: nat, b': nat, a': nat)
    requires (a != a' && -256 < a - a' < 256) || (b != b' && -256 < b - b' < 256)
    ensures b % ADLER_MOD * 0x10000 + a % ADLER_MOD != b' % ADLER_MOD * 0x10000 + a' % ADLER_MOD
  {
  }

  // ----- the wrapper

  /** `inf_is_zlib_header`: method 8, check bits, no preset dictionary. */
  predicate IsHeader(p: seq<byte>) {
    |p| >= 2 && IsDeflate(p[0]) && IsChecked(p[0], p[1]) && !HasDictionary(p[1])
  }

  predicate IsDeflate(cmf: byte) {
    cmf % 16 == 8
  }

  predicate IsChecked(cmf: byte, flg: byte) {
    (256 * (cmf as int) + flg) % 31 == 0
  }

  predicate HasDictionary(flg: byte) {
    flg / 32 % 2 == 1
  }

  /** The two header bytes of RFC 1950 section 2.2: compression method and window size, then
      check bits, dictionary flag and compression level. */
  function HeaderBytes(cm: nat, cinfo: nat, fcheck: nat, fdict: nat, flevel: nat): (r: seq<byte>)
    requires cm < 16 && cinfo < 16 && fcheck < 32 && fdict < 2 && flevel < 4
    ensures |r| == 2
  {
    [cm + 16 * cinfo, fcheck + 32 * fdict + 64 * flevel]
  }

  /** The check bits complete the header, read big-endian, to a multiple of 31. */
  predicate Completes(cm: nat, cinfo: nat, fcheck: nat, fdict: nat, flevel: nat) {
    (0x100 * (cm + 16 * cinfo) + fcheck + 32 * fdict + 64 * flevel) % 31 == 0
  }

  /** The least number that does. */
  function FCheck(cm: nat, cinfo: nat, fdict: nat, flevel: nat): (r: nat)
    requires cm < 16 && cinfo < 16 && fdict < 2 && flevel < 4
    ensures r < 31 && Completes(cm, cinfo, r, fdict, flevel)
  {
    var x := 0x100 * (cm + 16 * cinfo) + 32 * fdict + 64 * flevel;
    var r := if x % 31 == 0 then 0 else 31 - x % 31;
    CompletesTo(x, r);
    assert 0x100 * (cm + 16 * cinfo) + r + 32 * fdict + 64 * flevel == x + r;
    r
  }

  lemma CompletesTo(x: nat, r: nat)
    requires r == if x % 31 == 0 then 0 else 31 - x % 31
    ensures (x + r) % 31 == 0
  {
    assert x == 31 * (x / 31) + x % 31;
    assert x + r == if x % 31 == 0 then 31 * (x / 31) else 31 * (x / 31 + 1);
  }

  /** Of the complete headers exactly those of method 8 without a dictionary are taken. */
  lemma HeaderIff(cm: nat, cinfo: nat, fcheck: nat, fdict: nat, flevel: nat)
    requires cm < 16 && cinfo < 16 && fcheck < 32 && fdict < 2 && flevel < 4
    ensures IsHeader(HeaderBytes(cm, cinfo, fcheck, fdict, flevel))
       <==> cm == 8 && fdict == 0 && Completes(cm, cinfo, fcheck, fdict, flevel)
  {
    hide IsDeflate, IsChecked, HasDictionary, Completes;
    var a, b := cm + 16 * cinfo, fcheck + 32 * fdict + 64 * flevel;
    MethodNibble(cm, cinfo, a);
    DictionaryBit(fcheck, fdict, flevel, b);
    CompletesPair(cm, cinfo, fcheck, fdict, flevel, a, b);
  }

  lemma CompletesPair(cm: nat, cinfo: nat, fcheck: nat, fdict: nat, flevel: nat, a: byte, b: byte)
    requires a == cm + 16 * cinfo && b == fcheck + 32 * fdict + 64 * flevel
    ensures Completes(cm, cinfo, fcheck, fdict, flevel) <==> IsChecked(a, b)
  {
    assert 0x100 * (cm + 16 * cinfo) + fcheck + 32 * fdict + 64 * flevel == 256 * (a as int) + b;
  }

  lemma MethodNibble(cm: nat, cinfo: nat, a: byte)
    requires cm < 16 && a == cm + 16 * cinfo
    ensures IsDeflate(a) <==> cm == 8
  {
  }

  lemma DictionaryBit(fcheck: nat, fdict: nat, flevel: nat, b: byte)
    requires fcheck < 32 && fdict < 2 && flevel < 4 && b == fcheck + 32 * fdict + 64 * flevel
    ensures HasDictionary(b) <==> fdict == 1
  {
    assert b / 32 == fdict + 2 * flevel;
  }

  /** And every two bytes are such a header. */
  lemma EveryHeader(p: seq<byte>) returns (cm: nat, cinfo: nat, fcheck: nat, fdict: nat, flevel: nat)
    requires |p| == 2
    ensures cm < 16 && cinfo < 16 && fcheck < 32 && fdict < 2 && flevel < 4
    ensures p == HeaderBytes(cm, cinfo, fcheck, fdict, flevel)
  {
    var a, b := p[0] as int, p[1] as int;
    cm, cinfo, fcheck, fdict, flevel := a % 16, a / 16, b % 32, b / 32 % 2, b / 64;
    assert b / 32 == fdict + 2 * flevel;
  }

  /** Only the first two bytes matter. */
  lemma HeaderIsTwoBytes(p: seq<byte>)
    requires |p| >= 2
    ensures IsHeader(p) <==> IsHeader(p[..2])
  {
  }

  function BigEndian(p: seq<byte>): (r: nat)
    requires |p| == 4
  {
    0x1000000 * (p[0] as int) + 0x10000 * (p[1] as int) + 0x100 * (p[2] as int) + p[3]
  }

  lemma FourBytes(v: nat)
    requires v < 0x1_0000_0000
    ensures v / 0x1000000 < 0x100
    ensures v == 0x1000000 * (v / 0x1000000) + 0x10000 * (v / 0x10000 % 0x100) + 0x100 * (v / 0x100 % 0x100) + v % 0x100
  {
    var x, y := v / 0x100, v / 0x10000;
    assert y == x / 0x100 && v / 0x1000000 == y / 0x100;
    assert v == 0x100 * x + v % 0x100 && x == 0x100 * y + x % 0x100 && y == 0x100 * (y / 0x100) + y % 0x100;
  }

  function BigEndianBytes(v: nat): (r: seq<byte>)
    requires v < 0x1_0000_0000
    ensures |r| == 4 && BigEndian(r) == v
  {
    FourBytes(v);
    [v / 0x1000000, v / 0x10000 % 0x100, v / 0x100 % 0x100, v % 0x100]
  }

  function Body(src: seq<byte>): seq<byte>
    requires |src| >= 6
  {
    src[2..|src| - 4]
  }

  function Trailer(src: seq<byte>): seq<byte>
    requires |src| >= 6
  {
    src[|src| - 4..]
  }

  /** The outcome of inf_zlib: a status, and the output written so far. */
  function Unzip(src: seq<byte>, cap: nat): (r: (Status, seq<byte>)) {
    if |src| < 6 || !IsHeader(src) then (ErrHeader, [])
    else
      var run := Inflate(Body(src), cap);
      if run.st != Ok then (run.st, run.out)
      else if Adler(run.out) != BigEndian(Trailer(src)) then (ErrAdler, run.out)
      else (Ok, run.out)
  }

  /** `inf_zlib`. The caller's length changes only on success. */
  method UnzipInto(src: seq<byte>, dst: array<byte>, cap: nat) returns (st: Status, produced: nat)
    requires cap <= dst.Length
    modifies dst
    ensures st == Unzip(src, cap).0
    ensures st == Ok ==> produced <= cap && dst[..produced] == Unzip(src, cap).1
    ensures st != Ok ==> produced == cap
    ensures dst[cap..] == old(dst[cap..])
  {
    hide Inflate, Adler;
    if |src| < 6 || !IsHeader(src) {
      return ErrHeader, cap;
    }
    st, produced := InflateInto(Body(src), dst, cap);
    if st != Ok {
      return st, cap;
    }
    var sum := Adler32(dst[..produced]);
    if sum != BigEndian(Trailer(src)) {
      return ErrAdler, cap;
    }
    return Ok, produced;
  }

  /** inf_zlib accepts exactly a valid header, an encoding of the output, and the
      output's own checksum. */
  lemma UnzipIsExact(src: seq<byte>, cap: nat, out: seq<byte>)
    ensures Unzip(src, cap) == (Ok, out)
       <==> |src| >= 6 && IsHeader(src) && Encodes(Body(src), out) && |out| <= cap
            && Trailer(src) == BigEndianBytes(Adler(out))
  {
    hide Inflate, Encodes, Adler;
    if |src| >= 6 {
      InflateIsExact(Body(src), cap, out);
      BigEndianInjective(Trailer(src), BigEndianBytes(Adler(out)));
    }
  }

  lemma BigEndianInjective(a: seq<byte>, b: seq<byte>)
    requires |a| == 4 == |b|
    ensures BigEndian(a) == BigEndian(b) <==> a == b
  {
    if BigEndian(a) == BigEndian(b) {
      LowByte(0x10000 * (a[0] as int) + 0x100 * (a[1] as int) + a[2], a[3],
        0x10000 * (b[0] as int) + 0x100 * (b[1] as int) + b[2], b[3]);
      LowByte(0x100 * (a[0] as int) + a[1], a[2], 0x100 * (b[0] as int) + b[1], b[2]);
      LowByte(a[0], a[1], b[0], b[1]);
    }
  }

  lemma LowByte(h: int, l: byte, h': int, l': byte)
    requires 0x100 * h + l == 0x100 * h' + l'
    ensures h == h' && l == l'
  {
  }

  /** A zlib stream (RFC 1950 section 2.2) for a list of blocks: header, packed blocks, the
      checksum of what they mean, high byte first. */
  function Zip(cinfo: nat, fcheck: nat, flevel: nat, blocks: seq<Block>): seq<byte>
    requires cinfo < 16 && fcheck < 32 && flevel < 4 && StreamOk(0, [], blocks)
  {
    HeaderBytes(8, cinfo, fcheck, 0, flevel) + Pack(StreamBits(0, [], blocks))
    + BigEndianBytes(Adler(StreamMeaning(0, [], blocks)))
  }

  /** Such a stream unzips to what its blocks mean, whatever window size and level its
      header names, when the check bits are right, and is refused when they are not. */
  lemma UnzipInvertsZip(cinfo: nat, fcheck: nat, flevel: nat, blocks: seq<Block>, cap: nat)
    requires cinfo < 16 && fcheck < 32 && flevel < 4
    requires StreamOk(0, [], blocks) && |StreamMeaning(0, [], blocks)| <= cap
    ensures Unzip(Zip(cinfo, fcheck, flevel, blocks), cap)
         == if Completes(8, cinfo, fcheck, 0, flevel) then (Ok, StreamMeaning(0, [], blocks)) else (ErrHeader, [])
  {
    hide StreamOk, StreamBits, StreamMeaning, Inflate, Adler, IsHeader, HeaderBytes, Completes;
    var out := StreamMeaning(0, [], blocks);
    var body := Pack(StreamBits(0, [], blocks));
    var header := HeaderBytes(8, cinfo, fcheck, 0, flevel);
    var src := header + body + BigEndianBytes(Adler(out));
    HeaderIff(8, cinfo, fcheck, 0, flevel);
    HeaderIsTwoBytes(src);
    assert src[..2] == header;
    InflateOfPacked(cap, blocks);
    assert Body(src) == body && Trailer(src) == BigEndianBytes(Adler(out));
  }

  ghost predicate ByteChanged(a: seq<byte>, b: seq<byte>) {
    |a| == |b| && exists i :: 0 <= i < |a| && a[i] != b[i] && b == a[i := b[i]]
  }

  ghost predicate NeighboursSwapped(a: seq<byte>, b: seq<byte>) {
    exists i :: 0 <= i < |a| - 1 && a[i] != a[i + 1] && b == Swapped(a, i)
  }

  /** Two streams with the same trailer are never both accepted when the output of
      one is the other's with a byte changed or two neighbours exchanged. */
  lemma UnzipRejectsCorruption(src: seq<byte>, other: seq<byte>, cap: nat)
    requires Unzip(src, cap).0 == Ok && Unzip(other, cap).0 == Ok
    requires Trailer(src) == Trailer(other)
    ensures !ByteChanged(Unzip(src, cap).1, Unzip(other, cap).1)
    ensures !NeighboursSwapped(Unzip(src, cap).1, Unzip(other, cap).1)
  {
    hide Inflate, Adler;
    var out, out' := Unzip(src, cap).1, Unzip(other, cap).1;
    if ByteChanged(out, out') {
      var i :| 0 <= i < |out| && out[i] != out'[i] && out' == out[i := out'[i]];
      AdlerDetectsByteChange(out, i, out'[i]);
    }
    if NeighboursSwapped(out, out') {
      var i :| 0 <= i < |out| - 1 && out[i] != out[i + 1] && out' == Swapped(out, i);
      AdlerDetectsSwap(out, i);
    }
  }
}
