/** Reading a measurement file and combining its datasets over several processes. */
module Visualize {
  import opened Words
  import opened Output
  import Decimal

  type File = map<string, Dataset>

  predicate WellShaped(d: Dataset) {
    d.dimY >= 1 && d.dimX >= 1 && |d.cells| == d.dimY * d.dimX
  }

  /** A measurement: the datasets are numbered from 0 and have the same shape. */
  ghost predicate Readable(file: File) {
    && |file| >= 1
    && forall k: nat :: k < |file| ==>
         && Decimal.Print(k) in file && Decimal.Print(0) in file
         && WellShaped(file[Decimal.Print(k)])
         && file[Decimal.Print(k)].dimY == file[Decimal.Print(0)].dimY
         && file[Decimal.Print(k)].dimX == file[Decimal.Print(0)].dimX
  }

  /** What the profiler wrote is readable. */
  lemma WrittenIsReadable(written: seq<Dataset>)
    requires |written| >= 1
    requires forall k :: 0 <= k < |written| ==>
      WellShaped(written[k]) && written[k].dimY == written[0].dimY && written[k].dimX == written[0].dimX
    ensures Readable(FileOf(written))
  {
    FileLookup(written);
  }

  // ---------- vectors ----------

  type Vec = seq<nat>

  function Zeros(n: nat): (z: Vec)
    ensures |z| == n
  {
    seq(n, _ => 0)
  }

  /** Element-wise sum; the shapes agree. */
  function Add(a: Vec, b: Vec): (r: Vec)
    requires |a| == |b|
    ensures |r| == |a|
  {
    seq(|a|, i requires 0 <= i < |a| => a[i] + b[i])
  }

  ghost predicate SameLength(vs: seq<Vec>, n: nat) {
    forall i :: 0 <= i < |vs| ==> |vs[i]| == n
  }

  function Fold(vs: seq<Vec>, n: nat): (r: Vec)
    requires SameLength(vs, n)
    ensures |r| == n
  {
    if vs == [] then Zeros(n) else Add(Fold(vs[..|vs| - 1], n), vs[|vs| - 1])
  }

  function Sum(v: Vec): nat {
    if v == [] then 0 else Sum(v[..|v| - 1]) + v[|v| - 1]
  }

  lemma {:induction false} SumConcat(a: Vec, b: Vec)
    ensures Sum(a + b) == Sum(a) + Sum(b)
  {
    if b == [] {
      assert a + b == a;
    } else {
      SumConcat(a, b[..|b| - 1]);
      assert (a + b)[..|a + b| - 1] == a + b[..|b| - 1];
    }
  }

  lemma {:induction false} SumAdd(a: Vec, b: Vec)
    requires |a| == |b|
    ensures Sum(Add(a, b)) == Sum(a) + Sum(b)
  {
    if a != [] {
      var n := |a| - 1;
      SumAdd(a[..n], b[..n]);
      assert Add(a, b)[..n] == Add(a[..n], b[..n]);
    }
  }

  // ---------- order does not matter ----------

  lemma FoldSnoc(vs: seq<Vec>, x: Vec, n: nat)
    requires SameLength(vs, n) && |x| == n
    ensures SameLength(vs + [x], n) && Fold(vs + [x], n) == Add(Fold(vs, n), x)
  {
    assert (vs + [x])[..|vs|] == vs;
  }

  /** An element can be taken out of the middle and added last. */
  lemma {:induction false} FoldTakeOut(a: seq<Vec>, x: Vec, b: seq<Vec>, n: nat)
    requires SameLength(a, n) && |x| == n && SameLength(b, n)
    ensures SameLength(a + [x] + b, n) && SameLength(a + b, n)
    ensures Fold(a + [x] + b, n) == Add(Fold(a + b, n), x)
  {
    if b == [] {
      FoldSnoc(a, x, n);
      assert a + [x] + b == a + [x] && a + b == a;
    } else {
      var t, y := b[..|b| - 1], b[|b| - 1];
      FoldTakeOut(a, x, t, n);
      FoldSnoc(a + [x] + t, y, n);
      FoldSnoc(a + t, y, n);
      assert a + [x] + b == a + [x] + t + [y];
      assert a + b == a + t + [y];
    }
  }

  lemma SameLengthParts(p: seq<Vec>, x: Vec, q: seq<Vec>, n: nat)
    requires SameLength(p + [x] + q, n)
    ensures SameLength(p, n) && |x| == n && SameLength(q, n) && SameLength(p + q, n)
  {
    var all := p + [x] + q;
    assert forall i :: 0 <= i < |p| ==> p[i] == all[i];
    assert all[|p|] == x;
    assert forall i :: 0 <= i < |q| ==> q[i] == all[|p| + 1 + i];
  }

  lemma SplitAt<T>(b: seq<T>, x: T) returns (p: seq<T>, q: seq<T>)
    requires x in b
    ensures b == p + [x] + q
  {
    var i :| 0 <= i < |b| && b[i] == x;
    p, q := b[..i], b[i + 1..];
  }

  lemma MultisetTakeOut<T>(t: seq<T>, x: T, p: seq<T>, q: seq<T>)
    requires multiset(t + [x]) == multiset(p + [x] + q)
    ensures multiset(t) == multiset(p + q)
  {
    assert multiset(t + [x]) == multiset(t) + multiset{x};
    assert multiset(p + [x] + q) == multiset(p) + multiset{x} + multiset(q);
    assert multiset(p + q) == multiset(p) + multiset(q);
    assert multiset(t) == multiset(t) + multiset{x} - multiset{x};
  }

  /** The sum over a queue depends only on what is in it. */
  lemma {:induction false} FoldPermutation(a: seq<Vec>, b: seq<Vec>, n: nat)
    requires SameLength(a, n) && SameLength(b, n) && multiset(a) == multiset(b)
    ensures Fold(a, n) == Fold(b, n)
  {
    if a == [] {
      assert |b| == |multiset(b)| == 0;
    } else {
      hide Fold;
      var t, x := a[..|a| - 1], a[|a| - 1];
      assert a == t + [x];
      assert x in multiset(b);
      var p, q := SplitAt(b, x);
      SameLengthParts(p, x, q, n);
      MultisetTakeOut(t, x, p, q);
      FoldPermutation(t, p + q, n);
      FoldTakeOut(p, x, q, n);
      FoldSnoc(t, x, n);
    }
  }

  // ---------- chunks ----------

  function RowSums(cells: Vec, dimX: nat, dimY: nat): (r: Vec)
    requires dimY * dimX <= |cells|
    ensures |r| == dimY
  {
    var rows := Rows(cells, dimX, dimY);
    seq(dimY, y requires 0 <= y < dimY => Sum(rows[y]))
  }

  lemma RowSumAt(cells: Vec, dimX: nat, dimY: nat, y: nat)
    requires dimY * dimX <= |cells| && y < dimY
    ensures y * dimX + dimX <= |cells| && RowSums(cells, dimX, dimY)[y] == Sum(Row(cells, dimX, y))
  {
    RowsAt(cells, dimX, dimY, y);
  }

  /** chunk_at: the dataset with the number `key`, flattened, or each of its rows folded. */
  function ChunkAt(file: File, key: nat, combine: bool): (r: Vec)
    requires Readable(file) && key < |file|
    ensures |r| == Width(file, combine)
  {
    var d := file[Decimal.Print(key)];
    if combine then RowSums(d.cells, d.dimX, d.dimY) else d.cells
  }

  /** Length of every chunk. */
  function Width(file: File, combine: bool): nat
    requires Readable(file)
  {
    var d := file[Decimal.Print(0)];
    if combine then d.dimY else d.dimY * d.dimX
  }

  function SumChunks(file: File, combine: bool, lo: nat, hi: nat): (r: Vec)
    requires Readable(file) && hi <= |file|
    ensures |r| == Width(file, combine)
    decreases hi
  {
    if hi <= lo then Zeros(Width(file, combine))
    else Add(SumChunks(file, combine, lo, hi - 1), ChunkAt(file, hi - 1, combine))
  }

  lemma {:induction false} SumChunksSplit(file: File, combine: bool, mid: nat, hi: nat)
    requires Readable(file) && mid <= hi <= |file|
    ensures Add(SumChunks(file, combine, 0, mid), SumChunks(file, combine, mid, hi))
         == SumChunks(file, combine, 0, hi)
    decreases hi
  {
    hide Readable, ChunkAt, Width, Add;
    if mid < hi {
      SumChunksSplit(file, combine, mid, hi - 1);
      AddAssoc(SumChunks(file, combine, 0, mid), SumChunks(file, combine, mid, hi - 1), ChunkAt(file, hi - 1, combine));
    } else {
      AddZeros(SumChunks(file, combine, 0, mid));
    }
  }

  lemma AddAssoc(a: Vec, b: Vec, c: Vec)
    requires |a| == |b| == |c|
    ensures Add(Add(a, b), c) == Add(a, Add(b, c))
  {
  }

  lemma AddZeros(a: Vec)
    ensures Add(a, Zeros(|a|)) == a
  {
  }

  // ---------- the datasets of a file ----------

  /** The datasets of a measurement in the order of their numbers. */
  function Series(file: File): (ds: seq<Dataset>)
    requires Readable(file)
    ensures |ds| == |file|
  {
    seq(|file|, k requires 0 <= k < |file| => file[Decimal.Print(k)])
  }

  ghost predicate SameShape(ds: seq<Dataset>, dimY: nat, dimX: nat) {
    forall k :: 0 <= k < |ds| ==> ds[k].dimY == dimY && ds[k].dimX == dimX && |ds[k].cells| == dimY * dimX
  }

  lemma SeriesShape(file: File)
    requires Readable(file)
    ensures var d := file[Decimal.Print(0)]; SameShape(Series(file), d.dimY, d.dimX) && d.dimY >= 1 && d.dimX >= 1
  {
    var d := file[Decimal.Print(0)];
    assert Decimal.Print(0) in file && WellShaped(d);
    forall k | 0 <= k < |file| ensures WellShaped(Series(file)[k]) {
      assert Decimal.Print(k) in file && WellShaped(file[Decimal.Print(k)]);
    }
  }

  /** The datasets of a written file are the ones that were written, in order. */
  lemma SeriesWritten(written: seq<Dataset>)
    requires Readable(FileOf(written))
    ensures Series(FileOf(written)) == written
  {
    FileLookup(written);
  }

  ghost predicate Has(d: Dataset, combine: bool, y: nat) {
    if combine then y * d.dimX + d.dimX <= |d.cells| else y < |d.cells|
  }

  /** Cell y of the heatmap of a dataset, or its bar y: the sum of row y. */
  ghost function Point(d: Dataset, combine: bool, y: nat): nat
    requires Has(d, combine, y)
  {
    if combine then Sum(Row(d.cells, d.dimX, y)) else d.cells[y]
  }

  ghost predicate HasPoint(ds: seq<Dataset>, combine: bool, y: nat) {
    forall k :: 0 <= k < |ds| ==> Has(ds[k], combine, y)
  }

  /** The same point of every dataset. */
  ghost function Column(ds: seq<Dataset>, combine: bool, y: nat): (c: Vec)
    requires HasPoint(ds, combine, y)
    ensures |c| == |ds|
  {
    seq(|ds|, k requires 0 <= k < |ds| => Point(ds[k], combine, y))
  }

  lemma ShapeHasPoint(ds: seq<Dataset>, dimY: nat, dimX: nat, combine: bool, y: nat)
    requires SameShape(ds, dimY, dimX) && y < if combine then dimY else dimY * dimX
    ensures HasPoint(ds, combine, y)
  {
    if combine {
      MulMono(y + 1, dimY, dimX);
      MulStep(y, dimX);
    }
  }

  lemma SeriesHasPoint(file: File, combine: bool, y: nat)
    requires Readable(file) && y < Width(file, combine)
    ensures HasPoint(Series(file), combine, y)
  {
    SeriesShape(file);
    var d := file[Decimal.Print(0)];
    ShapeHasPoint(Series(file), d.dimY, d.dimX, combine, y);
  }

  lemma PartHasPoint(ds: seq<Dataset>, lo: nat, hi: nat, combine: bool, y: nat)
    requires lo <= hi <= |ds| && HasPoint(ds, combine, y)
    ensures HasPoint(ds[lo..hi], combine, y)
  {
  }

  /** Each chunk holds the points of its own dataset. */
  lemma ChunkPoint(file: File, key: nat, combine: bool, y: nat)
    requires Readable(file) && key < |file| && y < Width(file, combine)
    ensures Has(Series(file)[key], combine, y)
    ensures ChunkAt(file, key, combine)[y] == Point(Series(file)[key], combine, y)
  {
    SeriesHasPoint(file, combine, y);
    var d := Series(file)[key];
    hide Sum, Decimal.Print;
    if combine {
      RowSumAt(d.cells, d.dimX, d.dimY, y);
    }
  }

  lemma {:induction false} SumAt(file: File, combine: bool, lo: nat, hi: nat, y: nat)
    requires Readable(file) && lo <= hi <= |file| && y < Width(file, combine)
    ensures HasPoint(Series(file)[lo..hi], combine, y)
    ensures SumChunks(file, combine, lo, hi)[y] == Sum(Column(Series(file)[lo..hi], combine, y))
    decreases hi
  {
    hide Readable, ChunkAt, Width, Point, Has, Series;
    SeriesHasPoint(file, combine, y);
    PartHasPoint(Series(file), lo, hi, combine, y);
    if lo < hi {
      var ds := Series(file);
      SumAt(file, combine, lo, hi - 1, y);
      ChunkPoint(file, hi - 1, combine, y);
      assert ds[lo..hi] == ds[lo..hi - 1] + [ds[hi - 1]];
      ColumnSnoc(ds[lo..hi - 1], ds[hi - 1], combine, y);
    }
  }

  lemma ColumnSnoc(ds: seq<Dataset>, d: Dataset, combine: bool, y: nat)
    requires HasPoint(ds + [d], combine, y) && HasPoint(ds, combine, y) && Has(d, combine, y)
    ensures Sum(Column(ds + [d], combine, y)) == Sum(Column(ds, combine, y)) + Point(d, combine, y)
  {
    hide Has, Point;
    var all := Column(ds + [d], combine, y);
    assert all[..|ds|] == Column(ds, combine, y);
    assert all[|ds|] == Point(d, combine, y);
  }

  /** v is the point-wise sum of the datasets. */
  ghost predicate SumOf(v: Vec, ds: seq<Dataset>, combine: bool) {
    forall y :: 0 <= y < |v| ==> HasPoint(ds, combine, y) && v[y] == Sum(Column(ds, combine, y))
  }

  lemma ChunksAreSum(file: File, combine: bool, lo: nat, hi: nat)
    requires Readable(file) && lo <= hi <= |file|
    ensures SumOf(SumChunks(file, combine, lo, hi), Series(file)[lo..hi], combine)
  {
    hide Readable, ChunkAt, Width, Point, HasPoint, Series, Column, SumChunks;
    forall y | 0 <= y < |SumChunks(file, combine, lo, hi)|
      ensures HasPoint(Series(file)[lo..hi], combine, y)
      ensures SumChunks(file, combine, lo, hi)[y] == Sum(Column(Series(file)[lo..hi], combine, y))
    {
      SumAt(file, combine, lo, hi, y);
    }
  }

  // ---------- the slices of the workers ----------

  /** ceil(n / workers) * i, cut off at n. */
  function Bound(n: nat, workers: nat, i: nat): (b: nat)
    requires workers >= 1
    ensures b <= n
  {
    var start := (n + workers - 1) / workers * i;
    if n <= start then n else start
  }

  lemma BoundsCover(n: nat, workers: nat)
    requires n >= 1 && workers >= 1
    ensures Bound(n, workers, 0) == 0 && Bound(n, workers, workers) == n
  {
    CeilDiv(n, workers);
  }

  lemma BoundsGrow(n: nat, workers: nat, i: nat)
    requires workers >= 1
    ensures Bound(n, workers, i) <= Bound(n, workers, i + 1)
  {
    MulStep(i, (n + workers - 1) / workers);
  }

  function WorkerResult(file: File, combine: bool, workers: nat, i: nat): (r: Vec)
    requires Readable(file) && workers >= 1
    ensures |r| == Width(file, combine)
  {
    SumChunks(file, combine, Bound(|file|, workers, i), Bound(|file|, workers, i + 1))
  }

  function WorkerResults(file: File, combine: bool, workers: nat, ids: seq<nat>): (rs: seq<Vec>)
    requires Readable(file) && workers >= 1
    ensures |rs| == |ids| && SameLength(rs, Width(file, combine))
  {
    seq(|ids|, k requires 0 <= k < |ids| => WorkerResult(file, combine, workers, ids[k]))
  }

  lemma ResultsSnoc(file: File, combine: bool, workers: nat, c: nat)
    requires Readable(file) && workers >= 1
    ensures WorkerResults(file, combine, workers, CoreIds(c + 1))
         == WorkerResults(file, combine, workers, CoreIds(c)) + [WorkerResult(file, combine, workers, c)]
  {
    hide WorkerResult, Readable, Width;
  }

  /** In core order the results telescope to the sum of all datasets. */
  lemma {:induction false} InCoreOrder(file: File, combine: bool, workers: nat, c: nat)
    requires Readable(file) && workers >= 1
    ensures Fold(WorkerResults(file, combine, workers, CoreIds(c)), Width(file, combine))
         == SumChunks(file, combine, 0, Bound(|file|, workers, c))
  {
    assert |file| >= 1;
    BoundsCover(|file|, workers);
    if c == 0 {
      assert WorkerResults(file, combine, workers, CoreIds(0)) == [];
    } else {
      hide Fold, SumChunks, Bound, Readable, CoreIds, Width, WorkerResults;
      InCoreOrder(file, combine, workers, c - 1);
      ResultsSnoc(file, combine, workers, c - 1);
      FoldSnoc(WorkerResults(file, combine, workers, CoreIds(c - 1)), WorkerResult(file, combine, workers, c - 1),
               Width(file, combine));
      BoundsGrow(|file|, workers, c - 1);
      SumChunksSplit(file, combine, Bound(|file|, workers, c - 1), Bound(|file|, workers, c));
    }
  }

  function CoreIds(c: nat): (ids: seq<nat>)
    ensures |ids| == c && forall i :: 0 <= i < c ==> ids[i] == i
  {
    seq(c, i requires 0 <= i => i)
  }

  /** The order in which the results of `workers` processes come out of the queue. */
  ghost predicate ArrivalOrder(arrivals: seq<nat>, workers: nat) {
    multiset(arrivals) == multiset(CoreIds(workers))
  }

  // ---------- image ----------

  lemma SliceEnds(n: nat, workers: nat, i: nat)
    requires workers >= 1
    ensures var step := (n + workers - 1) / workers;
      && Bound(n, workers, i) == (if n <= step * i then n else step * i)
      && step * (i + 1) == step * i + step
  {
    MulStep(i, (n + workers - 1) / workers);
  }

  /** Each dataset is in the slice of exactly one worker, number key / ceil(n / workers), and it has
      such a worker. */
  lemma SlicesPartition(n: nat, workers: nat, key: nat, i: nat)
    requires workers >= 1 && key < n
    ensures var step := (n + workers - 1) / workers; step >= 1 && key / step < workers
    ensures Bound(n, workers, i) <= key < Bound(n, workers, i + 1) <==> i == key / ((n + workers - 1) / workers)
  {
    CeilDiv(n, workers);
    SliceEnds(n, workers, i);
    SliceEnds(n, workers, i + 1);
    hide Bound;
    QuotientBound(key, (n + workers - 1) / workers, workers);
    InSlice(n, (n + workers - 1) / workers, key, i, Bound(n, workers, i), Bound(n, workers, i + 1));
  }

  lemma InSlice(n: nat, step: nat, key: nat, i: nat, lo: nat, hi: nat)
    requires step >= 1 && key < n
    requires lo == (if n <= step * i then n else step * i)
    requires hi == (if n <= step * i + step then n else step * i + step)
    ensures lo <= key < hi <==> i == key / step
  {
    QuotientInterval(key, step, i);
  }

  lemma QuotientBound(x: nat, d: nat, n: nat)
    requires d >= 1 && x < n * d
    ensures x / d < n
  {
    DivModBounds(x, d);
    if x / d >= n {
      MulMono(n, x / d, d);
    }
  }

  lemma QuotientInterval(x: nat, d: nat, q: nat)
    requires d >= 1
    ensures d * q <= x < d * q + d <==> q == x / d
  {
    DivModBounds(x, d);
    if d * q <= x < d * q + d {
      DivModUnique(q, x - d * q, d);
    }
  }

  /** The datasets of a worker. */
  function Slice(file: File, workers: nat, i: nat): seq<Dataset>
    requires Readable(file) && workers >= 1
  {
    BoundsGrow(|file|, workers, i);
    Series(file)[Bound(|file|, workers, i)..Bound(|file|, workers, i + 1)]
  }

  lemma SliceIsSum(file: File, combine: bool, workers: nat, i: nat)
    requires Readable(file) && workers >= 1
    ensures SumOf(WorkerResult(file, combine, workers, i), Slice(file, workers, i), combine)
  {
    hide SumOf, SumChunks, Series, Readable, Bound;
    BoundsGrow(|file|, workers, i);
    ChunksAreSum(file, combine, Bound(|file|, workers, i), Bound(|file|, workers, i + 1));
  }

  method ImageWorker(file: File, combine: bool, workers: nat, coreId: nat) returns (result: Vec)
    requires Readable(file) && workers >= 1 && coreId < workers
    ensures result == WorkerResult(file, combine, workers, coreId)
    ensures SumOf(result, Slice(file, workers, coreId), combine)
  {
    hide ChunkAt, Width, SumOf, Slice, Series;
    SliceIsSum(file, combine, workers, coreId);
    var n := |file|;
    var step := (n + workers - 1) / workers;
    var start, end := step * coreId, step * (coreId + 1);
    SliceEnds(n, workers, coreId);
    SliceEnds(n, workers, coreId + 1);
    CeilDiv(n, workers);
    hide Bound;
    if n <= end {
      end := end - (end - n);
    }
    result := Zeros(|ChunkAt(file, 0, combine)|);
    var i := start;
    while i < end
      invariant start <= i && (if start < end then i <= end else i == start)
      invariant |result| == Width(file, combine)
      invariant start < end ==> result == SumChunks(file, combine, start, i)
      invariant i == start ==> result == Zeros(Width(file, combine))
    {
      result := Add(result, ChunkAt(file, i, combine));
      i := i + 1;
    }
  }

  lemma WidthIs(file: File, combine: bool)
    requires Readable(file)
    ensures Decimal.Print(0) in file
    ensures var d := file[Decimal.Print(0)]; Width(file, combine) == if combine then d.dimY else d.dimY * d.dimX
  {
  }

  lemma AllSummed(file: File, combine: bool)
    requires Readable(file)
    ensures SumOf(SumChunks(file, combine, 0, |file|), Series(file), combine)
  {
    hide SumOf, SumChunks, Series, Readable;
    ChunksAreSum(file, combine, 0, |file|);
    assert Series(file)[0..|file|] == Series(file);
  }

  /** generate_image, when the results come out of the queue in the given order of core ids: for
      every order and every number of workers it is the sum of all datasets. */
  method GenerateImage(file: File, combine: bool, workers: nat, arrivals: seq<nat>) returns (result: Vec)
    requires Readable(file) && workers >= 1 && ArrivalOrder(arrivals, workers)
    ensures result == SumChunks(file, combine, 0, |file|)
    ensures SumOf(result, Series(file), combine)
    ensures var d := file[Decimal.Print(0)]; |result| == if combine then d.dimY else d.dimY * d.dimX
  {
    ArrivalCount(arrivals, workers);
    AllSummed(file, combine);
    ghost var rs := WorkerResults(file, combine, workers, arrivals);
    hide WorkerResult, SumChunks, ArrivalOrder, Width, Readable, Fold, Add, SumOf, Series, Slice;
    WidthIs(file, combine);
    result := ImageWorker(file, combine, workers, arrivals[0]);
    FirstFold(rs, Width(file, combine));
    for i := 1 to workers
      invariant |result| == Width(file, combine) && result == Fold(rs[..i], Width(file, combine))
    {
      var next := ImageWorker(file, combine, workers, arrivals[i]);
      result := Add(result, next);
      FoldNext(rs, i, Width(file, combine));
    }
    assert rs[..workers] == rs;
    AnyArrival(file, combine, workers, arrivals);
  }

  lemma FoldNext(rs: seq<Vec>, i: nat, n: nat)
    requires SameLength(rs, n) && i < |rs|
    ensures Fold(rs[..i + 1], n) == Add(Fold(rs[..i], n), rs[i])
  {
    assert rs[..i + 1][..i] == rs[..i];
  }

  lemma FirstFold(rs: seq<Vec>, n: nat)
    requires SameLength(rs, n) && |rs| >= 1
    ensures Fold(rs[..1], n) == rs[0]
  {
    assert rs[..1][..0] == [];
  }

  lemma ArrivalCount(arrivals: seq<nat>, workers: nat)
    requires ArrivalOrder(arrivals, workers)
    ensures |arrivals| == workers
    ensures forall i :: 0 <= i < |arrivals| ==> arrivals[i] < workers
  {
    assert |arrivals| == |multiset(arrivals)| == |multiset(CoreIds(workers))|;
    forall i | 0 <= i < |arrivals| ensures arrivals[i] < workers {
      assert arrivals[i] in multiset(CoreIds(workers));
    }
  }

  function Map(f: nat -> Vec, ids: seq<nat>): seq<Vec> {
    seq(|ids|, k requires 0 <= k < |ids| => f(ids[k]))
  }

  /** Mapping a permutation gives a permutation. */
  lemma {:induction false} MapPermutes(f: nat -> Vec, a: seq<nat>, b: seq<nat>)
    requires multiset(a) == multiset(b)
    ensures multiset(Map(f, a)) == multiset(Map(f, b))
  {
    if a == [] {
      assert |b| == |multiset(b)| == 0;
    } else {
      var t, x := a[..|a| - 1], a[|a| - 1];
      assert a == t + [x];
      assert x in multiset(b);
      var p, q := SplitAt(b, x);
      hide Map;
      MultisetTakeOut(t, x, p, q);
      MapPermutes(f, t, p + q);
      MapTakeOut(f, t, x, []);
      MapTakeOut(f, p, x, q);
      assert t + [x] + [] == a && t + [] == t;
    }
  }

  lemma MapTakeOut(f: nat -> Vec, p: seq<nat>, x: nat, q: seq<nat>)
    ensures multiset(Map(f, p + [x] + q)) == multiset(Map(f, p + q)) + multiset{f(x)}
  {
    var rp, rq := Map(f, p), Map(f, q);
    assert Map(f, p + [x] + q) == rp + [f(x)] + rq;
    assert Map(f, p + q) == rp + rq;
  }

  lemma ResultsPermute(file: File, combine: bool, workers: nat, a: seq<nat>, b: seq<nat>)
    requires Readable(file) && workers >= 1 && multiset(a) == multiset(b)
    ensures multiset(WorkerResults(file, combine, workers, a)) == multiset(WorkerResults(file, combine, workers, b))
  {
    var f: nat -> Vec := i => if Readable(file) && workers >= 1 then WorkerResult(file, combine, workers, i) else [];
    hide WorkerResult, Readable;
    assert WorkerResults(file, combine, workers, a) == Map(f, a);
    assert WorkerResults(file, combine, workers, b) == Map(f, b);
    MapPermutes(f, a, b);
  }

  lemma AnyArrival(file: File, combine: bool, workers: nat, arrivals: seq<nat>)
    requires Readable(file) && workers >= 1 && ArrivalOrder(arrivals, workers)
    ensures Fold(WorkerResults(file, combine, workers, arrivals), Width(file, combine))
         == SumChunks(file, combine, 0, |file|)
  {
    assert |file| >= 1;
    hide Fold, WorkerResult, SumChunks, Readable, WorkerResults, Width;
    ResultsPermute(file, combine, workers, arrivals, CoreIds(workers));
    FoldPermutation(WorkerResults(file, combine, workers, arrivals),
                    WorkerResults(file, combine, workers, CoreIds(workers)), Width(file, combine));
    InCoreOrder(file, combine, workers, workers);
    BoundsCover(|file|, workers);
  }

  ghost predicate Measured(written: seq<Dataset>, dimY: nat, dimX: nat) {
    |written| >= 1 && dimY >= 1 && dimX >= 1 && SameShape(written, dimY, dimX)
  }

  lemma MeasuredIsReadable(written: seq<Dataset>, dimY: nat, dimX: nat)
    requires Measured(written, dimY, dimX)
    ensures Readable(FileOf(written)) && |FileOf(written)| == |written| && Series(FileOf(written)) == written
    ensures FileOf(written)[Decimal.Print(0)] == written[0]
  {
    WrittenIsReadable(written);
    FileLookup(written);
    SeriesWritten(written);
  }

  /** Cell i of the heatmap of a written file is the sum of the cells i of all datasets. */
  lemma HeatmapOfWritten(written: seq<Dataset>, dimY: nat, dimX: nat, result: Vec, i: nat)
    requires Measured(written, dimY, dimX) && Readable(FileOf(written)) && i < |result| == dimY * dimX
    requires SumOf(result, Series(FileOf(written)), false)
    ensures result[i] == Sum(seq(|written|, k requires 0 <= k < |written| => written[k].cells[i]))
  {
    hide Decimal.Print, Readable, Series, FileOf, Sum;
    MeasuredIsReadable(written, dimY, dimX);
    assert Column(written, false, i) == seq(|written|, k requires 0 <= k < |written| => written[k].cells[i]);
  }

  /** The sums of row y of all datasets. */
  ghost function RowTotals(written: seq<Dataset>, dimX: nat, y: nat): (totals: Vec)
    requires forall k :: 0 <= k < |written| ==> y * dimX + dimX <= |written[k].cells|
    ensures |totals| == |written|
    ensures forall k :: 0 <= k < |written| ==> totals[k] == Sum(written[k].cells[y * dimX..y * dimX + dimX])
  {
    seq(|written|, k requires 0 <= k < |written| => Sum(written[k].cells[y * dimX..y * dimX + dimX]))
  }

  /** Bar y of the bar chart is the sum of the rows y of all datasets. */
  lemma BarsOfWritten(written: seq<Dataset>, dimY: nat, dimX: nat, result: Vec, y: nat)
    requires Measured(written, dimY, dimX) && Readable(FileOf(written)) && y < |result| == dimY
    requires SumOf(result, Series(FileOf(written)), true)
    ensures forall k :: 0 <= k < |written| ==> y * dimX + dimX <= |written[k].cells|
    ensures result[y] == Sum(RowTotals(written, dimX, y))
  {
    hide Decimal.Print, Readable, Series, FileOf, Sum;
    MeasuredIsReadable(written, dimY, dimX);
    MulMono(y + 1, dimY, dimX);
    MulStep(y, dimX);
    assert Column(written, true, y) == RowTotals(written, dimX, y);
  }

  // ---------- folding rows before or after summing ----------

  lemma RowOfSum(a: Vec, b: Vec, dimX: nat, y: nat)
    requires |a| == |b| && y * dimX + dimX <= |a|
    ensures Row(Add(a, b), dimX, y) == Add(Row(a, dimX, y), Row(b, dimX, y))
  {
  }

  lemma RowSumOfSum(a: Vec, b: Vec, dimX: nat, dimY: nat, y: nat)
    requires |a| == |b| && dimY * dimX <= |a| && y < dimY
    ensures RowSums(Add(a, b), dimX, dimY)[y] == RowSums(a, dimX, dimY)[y] + RowSums(b, dimX, dimY)[y]
  {
    hide RowSums, Add, Row, Sum;
    RowSumAt(Add(a, b), dimX, dimY, y);
    RowSumAt(a, dimX, dimY, y);
    RowSumAt(b, dimX, dimY, y);
    RowOfSum(a, b, dimX, y);
    SumAdd(Row(a, dimX, y), Row(b, dimX, y));
  }

  lemma RowSumsAdd(a: Vec, b: Vec, dimX: nat, dimY: nat)
    requires |a| == |b| && dimY * dimX <= |a|
    ensures RowSums(Add(a, b), dimX, dimY) == Add(RowSums(a, dimX, dimY), RowSums(b, dimX, dimY))
  {
    hide RowSums;
    var l, r := RowSums(Add(a, b), dimX, dimY), Add(RowSums(a, dimX, dimY), RowSums(b, dimX, dimY));
    forall y | 0 <= y < dimY ensures l[y] == r[y] {
      RowSumOfSum(a, b, dimX, dimY, y);
    }
  }

  lemma {:induction false} SumZeros(n: nat)
    ensures Sum(Zeros(n)) == 0
  {
    if n > 0 {
      SumZeros(n - 1);
      assert Zeros(n)[..n - 1] == Zeros(n - 1);
    }
  }

  lemma RowOfZeros(n: nat, dimX: nat, y: nat)
    requires y * dimX + dimX <= n
    ensures Row(Zeros(n), dimX, y) == Zeros(dimX)
  {
  }

  lemma RowSumOfZeros(n: nat, dimX: nat, dimY: nat, y: nat)
    requires n == dimY * dimX && y < dimY
    ensures RowSums(Zeros(n), dimX, dimY)[y] == 0
  {
    hide RowSums, Row, Sum, Zeros;
    RowSumAt(Zeros(n), dimX, dimY, y);
    RowOfZeros(n, dimX, y);
    SumZeros(dimX);
  }

  lemma RowSumsZeros(n: nat, dimX: nat, dimY: nat)
    requires n == dimY * dimX
    ensures RowSums(Zeros(n), dimX, dimY) == Zeros(dimY)
  {
    hide RowSums, Zeros;
    forall y | 0 <= y < dimY ensures RowSums(Zeros(n), dimX, dimY)[y] == 0 {
      RowSumOfZeros(n, dimX, dimY, y);
    }
    AllZeros(RowSums(Zeros(n), dimX, dimY));
  }

  lemma AllZeros(v: Vec)
    requires forall y :: 0 <= y < |v| ==> v[y] == 0
    ensures v == Zeros(|v|)
  {
  }

  /** The bar chart equals the row sums of the heatmap: folding each row before summing over the
      datasets gives the same as summing first. */
  lemma {:induction false} BarsAreRowSums(file: File, n: nat)
    requires Readable(file) && n <= |file|
    ensures var d := file[Decimal.Print(0)];
      SumChunks(file, true, 0, n) == RowSums(SumChunks(file, false, 0, n), d.dimX, d.dimY)
  {
    var d := file[Decimal.Print(0)];
    if n == 0 {
      RowSumsZeros(d.dimY * d.dimX, d.dimX, d.dimY);
    } else {
      BarsAreRowSums(file, n - 1);
      hide RowSums, Add;
      RowSumsAdd(SumChunks(file, false, 0, n - 1), ChunkAt(file, n - 1, false), d.dimX, d.dimY);
    }
  }
}
