/** Pointer-shape recovery (analyze.c): which words of a region are taken for pointers
    to Thumb code, and when a run of them counts as a pointer table. */
module Shape {
  import opened Code
  import opened Bitmap

  const SHAPE_RUN_MIN: nat := 4

  /** `code_ptr_shape`: odd, and its even part a halfword of the segment. */
  predicate Shaped(img: Image, w: nat) {
    w % 2 == 1 && img.InSegment(w - 1) && (w - 1 - img.base) % 2 == 0
  }

  /** Word `k` belongs to a pointer table: at least four neighbouring words, `k` among
      them, all have the shape. */
  ghost predicate InTable(img: Image, words: seq<nat>, k: nat) {
    exists lo: nat, hi: nat :: lo <= k < hi <= |words| && hi - lo >= SHAPE_RUN_MIN && AllShaped(img, words, lo, hi)
  }

  ghost predicate AllShaped(img: Image, words: seq<nat>, lo: nat, hi: nat)
    requires lo <= hi <= |words|
  {
    forall k :: lo <= k < hi ==> Shaped(img, words[k])
  }

  /** Of an even-based segment, the words with the shape are the even targets plus one. */
  lemma ShapedIff(img: Image, w: nat)
    requires img.base % 2 == 0
    ensures Shaped(img, w) <==> exists t: nat :: t % 2 == 0 && img.InSegment(t) && w == t + 1
  {
    if Shaped(img, w) {
      assert (w - 1) % 2 == 0 && w == w - 1 + 1;
    }
  }

  lemma PointsEvenly(img: Image, t: nat)
    requires img.base % 2 == 0 && t % 2 == 0 && img.InSegment(t)
    ensures Shaped(img, t + 1)
  {
    ShapedIff(img, t + 1);
  }

  /** Four or more neighbouring words, each an even target of the segment plus one, are a
      table; and a word of a table has three such neighbours in a row with it. */
  lemma FourAreATable(img: Image, words: seq<nat>, k: nat)
    requires img.base % 2 == 0 && k < |words|
    ensures InTable(img, words, k) <==>
            exists lo: nat :: lo <= k < lo + 4 && FourPointers(img, words, lo)
  {
    hide Shaped;
    if InTable(img, words, k) {
      var lo: nat, hi: nat :| lo <= k < hi <= |words| && hi - lo >= SHAPE_RUN_MIN && AllShaped(img, words, lo, hi);
      var from := if k + 4 <= hi then k else hi - 4;
      forall j | from <= j < from + 4 ensures PointsTo(img, words[j]) {
        ShapedIff(img, words[j]);
      }
      assert FourPointers(img, words, from);
    }
    if lo: nat :| lo <= k < lo + 4 && FourPointers(img, words, lo) {
      forall j | lo <= j < lo + 4 ensures Shaped(img, words[j]) {
        assert PointsTo(img, words[j]);
        ShapedIff(img, words[j]);
      }
      assert AllShaped(img, words, lo, lo + 4);
    }
  }

  /** The word is an even address of the segment plus one. */
  ghost predicate PointsTo(img: Image, w: nat) {
    exists t: nat :: t % 2 == 0 && img.InSegment(t) && w == t + 1
  }

  lemma PointIsShaped(img: Image, w: nat)
    requires img.base % 2 == 0 && PointsTo(img, w)
    ensures Shaped(img, w)
  {
    ShapedIff(img, w);
  }

  ghost predicate FourPointers(img: Image, words: seq<nat>, lo: nat) {
    lo + 4 <= |words| && forall k :: lo <= k < lo + 4 ==> PointsTo(img, words[k])
  }

  /** Where the run starting at `k` stops. */
  function RunEnd(img: Image, words: seq<nat>, k: nat): (r: nat)
    requires k <= |words|
    ensures k <= r <= |words|
    decreases |words| - k
  {
    if k < |words| && Shaped(img, words[k]) then RunEnd(img, words, k + 1) else k
  }

  /** Where the run reaching up to `k` begins. */
  function RunStart(img: Image, words: seq<nat>, k: nat): (r: nat)
    requires k <= |words|
    ensures r <= k
    decreases k
  {
    if k > 0 && Shaped(img, words[k - 1]) then RunStart(img, words, k - 1) else k
  }

  lemma {:induction false} RunEndIs(img: Image, words: seq<nat>, k: nat)
    requires k <= |words|
    ensures AllShaped(img, words, k, RunEnd(img, words, k))
    ensures forall hi :: k <= hi <= |words| && AllShaped(img, words, k, hi) ==> hi <= RunEnd(img, words, k)
    decreases |words| - k
  {
    hide Shaped;
    if k < |words| && Shaped(img, words[k]) {
      RunEndIs(img, words, k + 1);
      forall hi | k <= hi <= |words| && AllShaped(img, words, k, hi) ensures hi <= RunEnd(img, words, k) {
        if hi > k {
          assert AllShaped(img, words, k + 1, hi);
        }
      }
    }
  }

  lemma {:induction false} RunStartIs(img: Image, words: seq<nat>, k: nat)
    requires k <= |words|
    ensures AllShaped(img, words, RunStart(img, words, k), k)
    ensures forall lo :: 0 <= lo <= k && AllShaped(img, words, lo, k) ==> lo >= RunStart(img, words, k)
    decreases k
  {
    hide Shaped;
    if k > 0 && Shaped(img, words[k - 1]) {
      RunStartIs(img, words, k - 1);
      forall lo | 0 <= lo <= k && AllShaped(img, words, lo, k) ensures lo >= RunStart(img, words, k) {
        if lo < k {
          assert AllShaped(img, words, lo, k - 1);
        }
      }
    }
  }

  /** A word is in a table exactly when the maximal run around it is long enough. */
  lemma InTableIffRun(img: Image, words: seq<nat>, k: nat)
    requires k < |words|
    ensures InTable(img, words, k)
       <==> Shaped(img, words[k]) && RunEnd(img, words, k) - RunStart(img, words, k) >= SHAPE_RUN_MIN
  {
    hide Shaped, RunStart, RunEnd;
    RunEndIs(img, words, k);
    RunStartIs(img, words, k);
    if InTable(img, words, k) {
      var lo: nat, hi: nat :| lo <= k < hi <= |words| && hi - lo >= SHAPE_RUN_MIN && AllShaped(img, words, lo, hi);
      assert AllShaped(img, words, lo, k) && AllShaped(img, words, k, hi);
    }
    if Shaped(img, words[k]) && RunEnd(img, words, k) - RunStart(img, words, k) >= SHAPE_RUN_MIN {
      var lo, hi := RunStart(img, words, k), RunEnd(img, words, k);
      assert AllShaped(img, words, k, k + 1);
      assert AllShaped(img, words, lo, hi);
    }
  }

  /** `shape_run_len`. */
  method RunLen(img: Image, words: seq<nat>, from: nat) returns (n: nat)
    requires from <= |words|
    ensures n == RunEnd(img, words, from) - from
  {
    n := 0;
    while from + n < |words| && Shaped(img, words[from + n])
      invariant from + n <= |words|
      invariant RunEnd(img, words, from) == RunEnd(img, words, from + n)
    {
      n := n + 1;
    }
  }

  /** What the counter must satisfy before word `k`: inside a table it counts the words
      left of it; otherwise no long run is in progress. */
  ghost predicate Counting(img: Image, words: seq<nat>, k: nat, left: nat)
    requires k <= |words|
  {
    if left > 0 then
      left == RunEnd(img, words, k) - k && RunEnd(img, words, k) - RunStart(img, words, k) >= SHAPE_RUN_MIN
    else
      RunStart(img, words, k) < k < RunEnd(img, words, k) ==>
        RunEnd(img, words, k) - RunStart(img, words, k) < SHAPE_RUN_MIN
  }

  lemma CountingStep(img: Image, words: seq<nat>, k: nat, left: nat, left': nat)
    requires k < |words| && Counting(img, words, k, left)
    requires left' == if left > 0 then left
                      else if RunEnd(img, words, k) - k >= SHAPE_RUN_MIN then RunEnd(img, words, k) - k else 0
    ensures left' > 0 <==> InTable(img, words, k)
    ensures Counting(img, words, k + 1, if left' > 0 then left' - 1 else 0)
  {
    hide InTable, Shaped;
    InTableIffRun(img, words, k);
  }

  /** The counter before word `n`: the words left of the table under way. */
  function Left(img: Image, words: seq<nat>, n: nat): (r: nat)
    requires n <= |words|
    ensures r <= |words| - n
  {
    if n == 0 then 0 else
      var left, run := Left(img, words, n - 1), RunEnd(img, words, n - 1) - (n - 1);
      if left > 0 then left - 1 else if run >= SHAPE_RUN_MIN then run - 1 else 0
  }

  /** The words of all runs measured before word `n`: one run at each word outside a table. */
  function Measured(img: Image, words: seq<nat>, n: nat): nat
    requires n <= |words|
  {
    if n == 0 then 0 else
      Measured(img, words, n - 1)
      + if Left(img, words, n - 1) == 0 then RunEnd(img, words, n - 1) - (n - 1) else 0
  }

  /** Measuring the runs costs at most three words per word scanned. */
  lemma {:induction false} MeasuringIsLinear(img: Image, words: seq<nat>, n: nat)
    requires n <= |words|
    ensures Measured(img, words, n) <= 3 * n + Left(img, words, n)
    decreases n
  {
    if n > 0 {
      MeasuringIsLinear(img, words, n - 1);
    }
  }

  /** Where a Thumb pointer points. */
  function Target(w: nat): nat {
    if w == 0 then 0 else w - 1
  }

  /** A word taken for a stored code pointer: pointer-shaped, decoding to something, and
      either looking like a prologue or vouched for by its table. */
  ghost predicate Vouched(img: Image, prologue: nat -> bool, words: seq<nat>, k: nat)
    requires k < |words|
  {
    && Shaped(img, words[k])
    && var t := words[k] - 1;
       && img.decode(t, T32).Some? && img.decode(t, T32).value.cls !in {Unknown, Undef}
       && (prologue(t) || InTable(img, words, k))
  }

  /** A word shape_scan_region seeds: one of those whose target is not decoded yet. */
  ghost predicate Accepted(img: Image, marked: set<nat>, prologue: nat -> bool, words: seq<nat>, k: nat)
    requires k < |words|
  {
    Vouched(img, prologue, words, k) && (words[k] - 1 - img.base) / 2 !in marked
  }

  ghost function Seeds(img: Image, marked: set<nat>, prologue: nat -> bool, words: seq<nat>, n: nat): (r: seq<nat>)
    requires n <= |words|
    ensures forall t :: t in r ==> img.InSegment(t) && (t - img.base) % 2 == 0
  {
    if n == 0 then [] else
      Seeds(img, marked, prologue, words, n - 1)
      + if Accepted(img, marked, prologue, words, n - 1) then [words[n - 1] - 1] else []
  }

  lemma {:induction false} SeedIsAccepted(img: Image, marked: set<nat>,
                                          prologue: nat -> bool, words: seq<nat>, n: nat, t: nat)
    returns (k: nat)
    requires n <= |words| && t in Seeds(img, marked, prologue, words, n)
    ensures k < n && words[k] == t + 1 && Accepted(img, marked, prologue, words, k)
    decreases n
  {
    hide InTable;
    if t in Seeds(img, marked, prologue, words, n - 1) {
      k := SeedIsAccepted(img, marked, prologue, words, n - 1, t);
    } else {
      k := n - 1;
    }
  }

  lemma {:induction false} AcceptedIsSeed(img: Image, marked: set<nat>,
                                          prologue: nat -> bool, words: seq<nat>, n: nat, k: nat)
    requires k < n <= |words| && Accepted(img, marked, prologue, words, k)
    ensures words[k] - 1 in Seeds(img, marked, prologue, words, n)
    decreases n
  {
    hide InTable, Accepted;
    if k < n - 1 {
      AcceptedIsSeed(img, marked, prologue, words, n - 1, k);
    }
  }

  /** `shape_scan_region`. The counter it carries agrees with the definition of a table
      at every word, and measuring the runs costs at most three steps per word. */
  method ScanRegion(img: Image, seen: Marks, prologue: nat -> bool, words: seq<nat>)
    returns (found: seq<nat>, ghost measured: nat)
    requires seen.Valid() && 16 * seen.bits.Length > img.len
    ensures found == Seeds(img, seen.marked, prologue, words, |words|)
    ensures measured == Measured(img, words, |words|) <= 3 * |words|
  {
    hide InTable, Shaped, Counting, Marks.Valid, RunStart;
    found, measured := [], 0;
    var left: nat := 0;
    CountingStarts(img, words);
    for k := 0 to |words|
      invariant Counting(img, words, k, left)
      invariant measured == Measured(img, words, k) && left == Left(img, words, k)
      invariant found == Seeds(img, seen.marked, prologue, words, k)
    {
      ghost var was := left;
      if left == 0 {
        var n := RunLen(img, words, k);
        measured := measured + n;
        if n >= SHAPE_RUN_MIN {
          left := n;
        }
      }
      CountingStep(img, words, k, was, left);
      var inTable := left > 0;
      if left > 0 {
        left := left - 1;
      }
      var take := Accept(img, seen, prologue, words[k], inTable);
      if take {
        found := found + [words[k] - 1];
      }
    }
    MeasuringIsLinear(img, words, |words|);
  }

  lemma CountingStarts(img: Image, words: seq<nat>)
    ensures Counting(img, words, 0, 0)
  {
  }

  /** The filters behind the shape test. */
  method Accept(img: Image, seen: Marks, prologue: nat -> bool, w: nat, inTable: bool) returns (take: bool)
    requires seen.Valid() && 16 * seen.bits.Length > img.len
    ensures take <==> Shaped(img, w) && (w - 1 - img.base) / 2 !in seen.marked
                      && img.decode(w - 1, T32).Some? && img.decode(w - 1, T32).value.cls !in {Unknown, Undef}
                      && (prologue(w - 1) || inTable)
    ensures take ==> w > 0
  {
    hide Marks.Valid;
    if !Shaped(img, w) {
      return false;
    }
    var t := w - 1;
    var known := seen.Get(t - img.base);
    if known {
      return false;
    }
    var d := img.decode(t, T32);
    if d.None? || d.value.cls in {Unknown, Undef} {
      return false;
    }
    take := prologue(t) || inTable;
  }
}
