/** The import stub table of module.c: built from the import records, sorted, searched. */
module Stubs {
  import opened Bits
  import opened Cpu
  import opened Code
  import opened Search
  import opened Emit

  /** The executable segment's bytes and where they are mapped. */
  datatype Segment = Segment(va: nat, bytes: seq<byte>)
  {
    /** `vm_va` finds the range. */
    predicate Maps(va: nat, need: nat) {
      this.va <= va && va - this.va + need <= |bytes|
    }

    /** `r32` through vm_va. */
    function Word(va: nat): (r: nat)
      requires Maps(va, 4)
    {
      var o := va - this.va;
      bytes[o] as int + 0x100 * (bytes[o + 1] as int)
      + 0x10000 * (bytes[o + 2] as int) + 0x1000000 * (bytes[o + 3] as int)
    }
  }

  /** `vm_import`: a library and its two parallel tables. */
  datatype Import = Import(library: nat, funcs: nat, nids: nat, entries: nat)

  /** `vm_stub`. */
  datatype Stub = Stub(addr: nat, library: nat, nid: nat)

  /** Both tables of the record lie in the segment; otherwise it is skipped. */
  predicate Readable(seg: Segment, im: Import) {
    seg.Maps(im.nids, 4 * im.funcs) && seg.Maps(im.entries, 4 * im.funcs)
  }

  /** Entry `k` of one table names the function, entry `k` of the other its stub. */
  function StubAt(seg: Segment, im: Import, k: nat): Stub
    requires Readable(seg, im) && k < im.funcs
  {
    Stub(ClearThumb(seg.Word(im.entries + 4 * k)), im.library, seg.Word(im.nids + 4 * k))
  }

  predicate Describes(seg: Segment, im: Import, k: nat, s: Stub) {
    Readable(seg, im) && k < im.funcs && s == StubAt(seg, im, k)
  }

  /** Some entry of some record describes the stub. */
  ghost predicate Imported(seg: Segment, imports: seq<Import>, s: Stub) {
    exists i, k: nat :: 0 <= i < |imports| && Describes(seg, imports[i], k, s)
  }

  /** The first `k` entries of a record. */
  function Rows(seg: Segment, im: Import, k: nat): (r: seq<Stub>)
    requires Readable(seg, im) && k <= im.funcs
    ensures |r| == k
  {
    if k == 0 then [] else Rows(seg, im, k - 1) + [StubAt(seg, im, k - 1)]
  }

  /** The table before sorting: the first `n` records' entries. */
  function Table(seg: Segment, imports: seq<Import>, n: nat): (r: seq<Stub>)
    requires n <= |imports|
    ensures |r| <= TotalFuncs(imports, n)
  {
    if n == 0 then [] else
      var im := imports[n - 1];
      Table(seg, imports, n - 1) + if Readable(seg, im) then Rows(seg, im, im.funcs) else []
  }

  function TotalFuncs(imports: seq<Import>, n: nat): nat
    requires n <= |imports|
  {
    if n == 0 then 0 else TotalFuncs(imports, n - 1) + imports[n - 1].funcs
  }

  lemma {:induction false} TotalGrows(imports: seq<Import>, m: nat, n: nat)
    requires m <= n <= |imports|
    ensures TotalFuncs(imports, m) <= TotalFuncs(imports, n)
    decreases n
  {
    if m < n {
      TotalGrows(imports, m, n - 1);
    }
  }

  lemma {:induction false} RowsHave(seg: Segment, im: Import, n: nat, s: Stub)
    requires Readable(seg, im) && n <= im.funcs
    ensures s in Rows(seg, im, n) <==> exists k: nat :: k < n && Describes(seg, im, k, s)
  {
    hide StubAt;
    if n > 0 {
      RowsHave(seg, im, n - 1, s);
      if s == StubAt(seg, im, n - 1) {
        assert Describes(seg, im, n - 1, s);
      }
    }
  }

  lemma {:induction false} TableHas(seg: Segment, imports: seq<Import>, n: nat, s: Stub)
    requires n <= |imports|
    ensures s in Table(seg, imports, n)
       <==> exists i, k: nat :: 0 <= i < n && Describes(seg, imports[i], k, s)
  {
    hide StubAt;
    if n > 0 {
      TableHas(seg, imports, n - 1, s);
      var im := imports[n - 1];
      if Readable(seg, im) {
        RowsHave(seg, im, im.funcs, s);
      }
      if i, k: nat :| 0 <= i < n && Describes(seg, imports[i], k, s) {
        assert i == n - 1 || i < n - 1;
      }
    }
  }

  // ----- the tables as bytes

  function WordBytes(w: word): (r: seq<byte>)
    ensures |r| == 4
  {
    [w % 0x100, w / 0x100 % 0x100, w / 0x1_0000 % 0x100, w / 0x100_0000]
  }

  /** Words as the file has them, low byte first. */
  function WordsBytes(ws: seq<word>): (r: seq<byte>)
    ensures |r| == 4 * |ws|
  {
    if ws == [] then [] else
      var w := ws[0];
      WordBytes(w) + WordsBytes(ws[1..])
  }

  /** The segment holds the words at `va`. */
  predicate HoldsAt(seg: Segment, va: nat, ws: seq<word>) {
    && seg.va <= va && va - seg.va + 4 * |ws| <= |seg.bytes|
    && seg.bytes[va - seg.va..][..4 * |ws|] == WordsBytes(ws)
  }

  lemma BytesOfWord(w: word)
    ensures w % 0x100 + 0x100 * (w / 0x100 % 0x100) + 0x1_0000 * (w / 0x1_0000 % 0x100) + 0x100_0000 * (w / 0x100_0000)
         == w
  {
    var x := w / 0x100;
    assert w / 0x1_0000 == x / 0x100 && w / 0x100_0000 == x / 0x1_0000;
    assert x / 0x1_0000 == x / 0x100 / 0x100;
  }

  lemma {:induction false} WordsBytesAt(ws: seq<word>, k: nat, j: nat)
    requires k < |ws| && j < 4
    ensures WordsBytes(ws)[4 * k + j] == WordBytes(ws[k])[j]
  {
    hide WordBytes;
    if k > 0 {
      WordsBytesAt(ws[1..], k - 1, j);
      assert WordsBytes(ws) == WordBytes(ws[0]) + WordsBytes(ws[1..]);
    }
  }

  lemma ByteLaidOut(seg: Segment, va: nat, ws: seq<word>, k: nat, j: nat)
    requires k < |ws| && j < 4 && HoldsAt(seg, va, ws)
    ensures seg.bytes[va - seg.va + 4 * k + j] == WordBytes(ws[k])[j]
  {
    hide WordsBytes, WordBytes;
    WordsBytesAt(ws, k, j);
    var i := 4 * k + j;
    assert seg.bytes[va - seg.va..][..4 * |ws|][i] == seg.bytes[va - seg.va + i];
  }

  /** What is read back is what was laid out. */
  lemma WordLaidOut(seg: Segment, va: nat, ws: seq<word>, k: nat)
    requires k < |ws| && HoldsAt(seg, va, ws)
    ensures seg.Maps(va + 4 * k, 4) && seg.Word(va + 4 * k) == ws[k]
  {
    hide HoldsAt;
    assert seg.Maps(va, 4 * |ws|) by { HeldIsMapped(seg, va, ws); }
    BytesOfWord(ws[k]);
    ByteLaidOut(seg, va, ws, k, 0);
    ByteLaidOut(seg, va, ws, k, 1);
    ByteLaidOut(seg, va, ws, k, 2);
    ByteLaidOut(seg, va, ws, k, 3);
  }

  lemma HeldIsMapped(seg: Segment, va: nat, ws: seq<word>)
    requires HoldsAt(seg, va, ws)
    ensures seg.Maps(va, 4 * |ws|)
  {
  }

  /** One entry of a record: the word at its place in the table of stubs, and the one at
      the same place in the table of name hashes. */
  datatype Row = Row(entry: word, nid: word)

  /** A record whose two tables are in the file. */
  datatype Layout = Layout(im: Import, rows: seq<Row>)
  {
    function Entries(): (r: seq<word>)
      ensures |r| == |rows|
    {
      seq(|rows|, k requires 0 <= k < |rows| => rows[k].entry)
    }

    function Nids(): (r: seq<word>)
      ensures |r| == |rows|
    {
      seq(|rows|, k requires 0 <= k < |rows| => rows[k].nid)
    }

    /** The stubs of the first `n` entries: each address, rounded down to even, with its
        own hash. */
    function Stubs(n: nat): (r: seq<Stub>)
      requires n <= |rows|
      ensures |r| == n
    {
      seq(n, k requires 0 <= k < n => Stub(rows[k].entry / 2 * 2, im.library, rows[k].nid))
    }
  }

  predicate LaidOut(seg: Segment, l: Layout) {
    |l.rows| == l.im.funcs && HoldsAt(seg, l.im.entries, l.Entries()) && HoldsAt(seg, l.im.nids, l.Nids())
  }

  function ImportsOf(ls: seq<Layout>): (r: seq<Import>)
    ensures |r| == |ls| && forall i :: 0 <= i < |ls| ==> r[i] == ls[i].im
  {
    seq(|ls|, i requires 0 <= i < |ls| => ls[i].im)
  }

  /** All stubs of the first `n` records, in order. */
  function AllStubs(ls: seq<Layout>, n: nat): seq<Stub>
    requires n <= |ls|
  {
    if n == 0 then [] else AllStubs(ls, n - 1) + ls[n - 1].Stubs(|ls[n - 1].rows|)
  }

  lemma {:induction false} RowsLaidOut(seg: Segment, l: Layout, n: nat)
    requires LaidOut(seg, l) && n <= l.im.funcs && Readable(seg, l.im)
    ensures Rows(seg, l.im, n) == l.Stubs(n)
    decreases n
  {
    hide HoldsAt;
    if n > 0 {
      RowsLaidOut(seg, l, n - 1);
      WordLaidOut(seg, l.im.entries, l.Entries(), n - 1);
      WordLaidOut(seg, l.im.nids, l.Nids(), n - 1);
      assert l.Stubs(n) == l.Stubs(n - 1) + [l.Stubs(n)[n - 1]];
    }
  }

  /** From a segment that holds the tables of its records, the stub table has exactly the
      addresses laid out, each with its own hash. */
  lemma {:induction false} TableLaidOut(seg: Segment, ls: seq<Layout>, n: nat)
    requires n <= |ls| && forall l :: l in ls ==> LaidOut(seg, l)
    ensures Table(seg, ImportsOf(ls), n) == AllStubs(ls, n)
    decreases n
  {
    hide Rows, LaidOut, Layout.Stubs;
    if n > 0 {
      TableLaidOut(seg, ls, n - 1);
      assert ls[n - 1] in ls;
      LaidOutIsReadable(seg, ls[n - 1]);
      RowsLaidOut(seg, ls[n - 1], ls[n - 1].im.funcs);
    }
  }

  lemma LaidOutIsReadable(seg: Segment, l: Layout)
    requires LaidOut(seg, l)
    ensures Readable(seg, l.im) && |l.rows| == l.im.funcs
  {
  }

  // ----- sorting and searching

  function AddrOfStub(s: Stub): nat {
    s.addr
  }

  function Addrs(stubs: seq<Stub>): (r: seq<nat>)
    ensures |r| == |stubs| && forall k :: 0 <= k < |stubs| ==> r[k] == stubs[k].addr
  {
    seq(|stubs|, k requires 0 <= k < |stubs| => stubs[k].addr)
  }

  lemma SortedTable(v: seq<Stub>)
    ensures multiset(Sort(AddrOfStub, v)) == multiset(v)
    ensures forall s :: s in Sort(AddrOfStub, v) <==> s in v
    ensures Ordered(Addrs(Sort(AddrOfStub, v)))
    ensures Distinct(Addrs(v)) ==> Sorted(Addrs(Sort(AddrOfStub, v)))
  {
    var w := Sort(AddrOfStub, v);
    SortKeeps(AddrOfStub, v);
    SortOrders(AddrOfStub, v);
    forall i, j | 0 <= i < j < |w| ensures w[i].addr <= w[j].addr {
      assert AddrOfStub(w[i]) <= AddrOfStub(w[j]);
    }
    if Distinct(Addrs(v)) {
      forall i, j | 0 <= i < j < |v| ensures AddrOfStub(v[i]) != AddrOfStub(v[j]) {
        assert Addrs(v)[i] != Addrs(v)[j];
      }
      forall i, j | 0 <= i < j < |w| ensures w[i].addr < w[j].addr {
        assert AddrOfStub(w[i]) < AddrOfStub(w[j]);
      }
    }
  }

  /** The stub table of vm_parse: exactly the entries of the readable records, each as
      often as it occurs, in address order, strictly so when no address repeats. The test
      that the table has room never ends a record early. */
  method BuildStubs(seg: Segment, imports: seq<Import>) returns (stubs: seq<Stub>)
    ensures multiset(stubs) == multiset(Table(seg, imports, |imports|))
    ensures forall s :: s in stubs <==> Imported(seg, imports, s)
    ensures Ordered(Addrs(stubs))
    ensures Distinct(Addrs(Table(seg, imports, |imports|))) ==> Sorted(Addrs(stubs))
  {
    hide Imported, Readable, StubAt, Ordered, Distinct, Sorted;
    var total := 0;
    for i := 0 to |imports|
      invariant total == TotalFuncs(imports, i)
    {
      total := total + imports[i].funcs;
    }
    var v: seq<Stub> := [];
    for i := 0 to |imports|
      invariant v == Table(seg, imports, i)
    {
      TotalGrows(imports, i + 1, |imports|);
      if Readable(seg, imports[i]) {
        v := AddRows(seg, imports[i], v, total);
      }
    }
    SortedTable(v);
    forall s ensures s in v <==> Imported(seg, imports, s) {
      TableIsImported(seg, imports, s);
    }
    stubs := Sort(AddrOfStub, v);
  }

  lemma TableIsImported(seg: Segment, imports: seq<Import>, s: Stub)
    ensures s in Table(seg, imports, |imports|) <==> Imported(seg, imports, s)
  {
    hide Describes;
    TableHas(seg, imports, |imports|, s);
  }

  /** The loop over one record's entries. */
  method AddRows(seg: Segment, im: Import, before: seq<Stub>, total: nat) returns (v: seq<Stub>)
    requires Readable(seg, im) && |before| + im.funcs <= total
    ensures v == before + Rows(seg, im, im.funcs)
  {
    hide Readable, StubAt;
    v := before;
    for k := 0 to im.funcs
      invariant v == before + Rows(seg, im, k)
    {
      if |v| >= total {
        break;
      }
      v := v + [StubAt(seg, im, k)];
    }
  }

  /** `vm_find_stub`. */
  method FindStub(stubs: seq<Stub>, a: nat) returns (r: Option<Stub>)
    requires Ordered(Addrs(stubs))
    ensures r.Some? ==> r.value in stubs && r.value.addr == ClearThumb(a)
    ensures r.None? ==> forall s :: s in stubs ==> s.addr != ClearThumb(a)
  {
    hide Ordered, ClearThumb;
    var at := Find(Addrs(stubs), ClearThumb(a));
    if at < |stubs| {
      return Some(stubs[at]);
    }
    forall s | s in stubs ensures s.addr != ClearThumb(a) {
      var k :| 0 <= k < |stubs| && stubs[k] == s;
      assert Addrs(stubs)[k] == s.addr;
    }
    r := None;
  }

  /** Table and search together: an address is found exactly when, its Thumb bit
      cleared, some readable record imports a function there. */
  method FindImport(seg: Segment, imports: seq<Import>, a: nat) returns (r: Option<Stub>)
    ensures r.Some? ==> Imported(seg, imports, r.value) && r.value.addr == ClearThumb(a)
    ensures r.None? ==> forall s :: Imported(seg, imports, s) ==> s.addr != ClearThumb(a)
  {
    hide Imported, Ordered, ClearThumb;
    var stubs := BuildStubs(seg, imports);
    r := FindStub(stubs, a);
  }
}
