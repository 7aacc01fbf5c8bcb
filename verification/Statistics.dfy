/** Minimum, maximum, sum and count of a measurement, computed by several processes. */
module Statistics {
  import opened Words
  import opened Errors
  import opened Output
  import opened Visualize
  import Decimal

  // ---------- one worker ----------

  /** All values of datasets lo, ..., hi - 1. */
  function Flat(file: File, combine: bool, lo: nat, hi: nat): Vec
    requires Readable(file) && hi <= |file|
    decreases hi
  {
    if hi <= lo then [] else Flat(file, combine, lo, hi - 1) + ChunkAt(file, hi - 1, combine)
  }

  function WorkerValues(file: File, combine: bool, workers: nat, i: nat): Vec
    requires Readable(file) && workers >= 1
  {
    Flat(file, combine, Bound(|file|, workers, i), Bound(|file|, workers, i + 1))
  }

  /** The values of one dataset: its cells, or the sums of its rows. */
  ghost function Values(d: Dataset, combine: bool): (v: Vec)
    requires WellShaped(d)
    ensures |v| == (if combine then d.dimY else |d.cells|) && |v| >= 1
    ensures forall y :: 0 <= y < |v| ==> Has(d, combine, y) && v[y] == Point(d, combine, y)
  {
    AllPoints(d, combine);
    MulMono(1, d.dimY, d.dimX);
    seq(if combine then d.dimY else |d.cells|,
        y requires 0 <= y && y < (if combine then d.dimY else |d.cells|) && Has(d, combine, y) => Point(d, combine, y))
  }

  lemma AllPoints(d: Dataset, combine: bool)
    requires |d.cells| == d.dimY * d.dimX
    ensures forall y: nat :: y < (if combine then d.dimY else |d.cells|) ==> Has(d, combine, y)
  {
    forall y: nat | y < (if combine then d.dimY else |d.cells|) ensures Has(d, combine, y) {
      if combine {
        MulMono(y + 1, d.dimY, d.dimX);
        MulStep(y, d.dimX);
      }
    }
  }

  ghost predicate Filled(ds: seq<Dataset>) {
    forall k :: 0 <= k < |ds| ==> WellShaped(ds[k])
  }

  /** The values of several datasets, one after the other. */
  ghost function AllValues(ds: seq<Dataset>, combine: bool): Vec
    requires Filled(ds)
  {
    if ds == [] then [] else AllValues(ds[..|ds| - 1], combine) + Values(ds[|ds| - 1], combine)
  }

  lemma SeriesFilled(file: File)
    requires Readable(file)
    ensures Filled(Series(file))
  {
    SeriesShape(file);
  }

  lemma ChunkValues(file: File, key: nat, combine: bool)
    requires Readable(file) && key < |file|
    ensures Filled(Series(file)) && ChunkAt(file, key, combine) == Values(Series(file)[key], combine)
  {
    SeriesShape(file);
    var d := file[Decimal.Print(0)];
    assert Series(file)[key].dimY == d.dimY && Series(file)[key].dimX == d.dimX;
    hide Readable, ChunkAt, Series, Point, Has;
    var chunk, values := ChunkAt(file, key, combine), Values(Series(file)[key], combine);
    assert |chunk| == Width(file, combine) == |values|;
    forall y | 0 <= y < |chunk| ensures chunk[y] == values[y] {
      ChunkPoint(file, key, combine, y);
    }
  }

  /** The worker collects the values of exactly its datasets. */
  lemma {:induction false} FlatIsValues(file: File, combine: bool, lo: nat, hi: nat)
    requires Readable(file) && lo <= hi <= |file|
    ensures Filled(Series(file)[lo..hi])
    ensures Flat(file, combine, lo, hi) == AllValues(Series(file)[lo..hi], combine)
    decreases hi
  {
    SeriesFilled(file);
    hide Readable, ChunkAt, Series, Values, Filled, AllValues;
    PartFilled(Series(file), lo, hi);
    if lo < hi {
      var ds := Series(file);
      FlatIsValues(file, combine, lo, hi - 1);
      ChunkValues(file, hi - 1, combine);
      assert ds[lo..hi] == ds[lo..hi - 1] + [ds[hi - 1]];
      ValuesSnoc(ds[lo..hi - 1], ds[hi - 1], combine);
    } else {
      NoValues(combine);
      assert Series(file)[lo..hi] == [];
    }
  }

  lemma PartFilled(ds: seq<Dataset>, lo: nat, hi: nat)
    requires lo <= hi <= |ds| && Filled(ds)
    ensures Filled(ds[lo..hi])
  {
  }

  lemma NoValues(combine: bool)
    ensures Filled([]) && AllValues([], combine) == []
  {
  }

  lemma ValuesSnoc(ds: seq<Dataset>, d: Dataset, combine: bool)
    requires Filled(ds + [d])
    ensures Filled(ds) && WellShaped(d)
    ensures AllValues(ds + [d], combine) == AllValues(ds, combine) + Values(d, combine)
  {
    hide Values, WellShaped;
    assert forall k :: 0 <= k < |ds| ==> (ds + [d])[k] == ds[k];
    assert (ds + [d])[|ds|] == d;
    assert (ds + [d])[..|ds|] == ds;
  }

  lemma WorkerIsValues(file: File, combine: bool, workers: nat, i: nat)
    requires Readable(file) && workers >= 1
    ensures Filled(Slice(file, workers, i))
    ensures WorkerValues(file, combine, workers, i) == AllValues(Slice(file, workers, i), combine)
  {
    hide Readable, Series, Flat, AllValues, Filled, Bound;
    BoundsGrow(|file|, workers, i);
    FlatIsValues(file, combine, Bound(|file|, workers, i), Bound(|file|, workers, i + 1));
  }

  lemma WholeIsValues(file: File, combine: bool)
    requires Readable(file)
    ensures Filled(Series(file)) && Flat(file, combine, 0, |file|) == AllValues(Series(file), combine)
  {
    hide Readable, Series, Flat, AllValues, Filled;
    FlatIsValues(file, combine, 0, |file|);
    assert Series(file)[0..|file|] == Series(file);
  }

  /** Without combining, the values are the cells of the datasets, one after the other. */
  lemma {:induction false} ValuesOfWritten(written: seq<Dataset>, x: nat)
    requires Filled(written)
    ensures x in AllValues(written, false) <==> exists k :: 0 <= k < |written| && x in written[k].cells
  {
    if written != [] {
      hide Values, Filled, AllValues;
      var t, d := written[..|written| - 1], written[|written| - 1];
      assert written == t + [d];
      ValuesSnoc(t, d, false);
      ValuesOfWritten(t, x);
      CellsAreValues(d);
    }
  }

  lemma CellsAreValues(d: Dataset)
    requires WellShaped(d)
    ensures Values(d, false) == d.cells
  {
  }

  datatype Stats = Stats(maximum: nat, minimum: nat, summary: nat, count: nat)

  ghost predicate IsMax(x: nat, v: Vec) {
    x in v && forall y :: y in v ==> y <= x
  }

  ghost predicate IsMin(x: nat, v: Vec) {
    x in v && forall y :: y in v ==> x <= y
  }

  /** What one worker puts into the queue: `summary` starts at the first value, and the loop adds
      every value, the first one included. */
  ghost predicate StatsOf(s: Stats, v: Vec) {
    && v != [] && IsMax(s.maximum, v) && IsMin(s.minimum, v)
    && s.summary == v[0] + Sum(v) && s.count == |v|
  }

  method SliceStats(values: Vec) returns (r: Option<Stats>)
    ensures r.None? <==> values == []
    ensures r.Some? ==> StatsOf(r.value, values)
  {
    if values == [] { return None; }
    var minimum, maximum, summary := values[0], values[0], values[0];
    for i := 0 to |values|
      invariant minimum in values && maximum in values
      invariant forall k :: 0 <= k < i ==> minimum <= values[k] <= maximum
      invariant summary == values[0] + Sum(values[..i])
    {
      var value := values[i];
      if value < minimum {
        minimum := value;
      }
      if maximum < value {
        maximum := value;
      }
      summary := summary + value;
      assert values[..i + 1][..i] == values[..i];
    }
    assert values[..|values|] == values;
    r := Some(Stats(maximum, minimum, summary, |values|));
  }

  /** video_worker with combines == 1.  None: the slice is empty and `result[0]` raises. */
  method VideoWorker(file: File, combine: bool, workers: nat, coreId: nat) returns (r: Option<Stats>)
    requires Readable(file) && workers >= 1 && coreId < workers
    ensures r.None? <==> WorkerValues(file, combine, workers, coreId) == []
    ensures r.Some? ==> StatsOf(r.value, WorkerValues(file, combine, workers, coreId))
    ensures Filled(Slice(file, workers, coreId))
    ensures r.None? <==> AllValues(Slice(file, workers, coreId), combine) == []
    ensures r.Some? ==> StatsOf(r.value, AllValues(Slice(file, workers, coreId), combine))
  {
    hide ChunkAt, Width, StatsOf, Slice, Filled, AllValues;
    WorkerIsValues(file, combine, workers, coreId);
    var n := |file|;
    var step := (n + workers - 1) / workers;
    var start, end := step * coreId, step * (coreId + 1);
    SliceEnds(n, workers, coreId);
    SliceEnds(n, workers, coreId + 1);
    CeilDiv(n, workers);
    hide Bound;
    if n <= end {
      end := end - (end - n);
    }
    var result: Vec := [];
    var i := start;
    while i < end
      invariant start <= i && (if start < end then i <= end else i == start)
      invariant start < end ==> result == Flat(file, combine, start, i)
      invariant i == start ==> result == []
    {
      result := result + ChunkAt(file, i, combine);
      i := i + 1;
    }
    r := SliceStats(result);
  }

  // ---------- merging the statistics ----------

  /** Sum, number and first value of the values of one worker. */
  function Triple(v: Vec): (t: Vec)
    ensures |t| == 3
  {
    [Sum(v), |v|, if v == [] then 0 else v[0]]
  }

  function WorkerTriples(file: File, combine: bool, workers: nat, ids: seq<nat>): (ts: seq<Vec>)
    requires Readable(file) && workers >= 1
    ensures |ts| == |ids| && SameLength(ts, 3)
  {
    seq(|ids|, k requires 0 <= k < |ids| => Triple(WorkerValues(file, combine, workers, ids[k])))
  }

  /** Sum of the first values of the slices. */
  function FirstValues(file: File, combine: bool, workers: nat, c: nat): nat
    requires Readable(file) && workers >= 1
  {
    if c == 0 then 0
    else FirstValues(file, combine, workers, c - 1) + Triple(WorkerValues(file, combine, workers, c - 1))[2]
  }

  lemma {:induction false} FlatSplit(file: File, combine: bool, mid: nat, hi: nat)
    requires Readable(file) && mid <= hi <= |file|
    ensures Flat(file, combine, 0, mid) + Flat(file, combine, mid, hi) == Flat(file, combine, 0, hi)
    decreases hi
  {
    hide Readable, ChunkAt, Width;
    if mid < hi {
      FlatSplit(file, combine, mid, hi - 1);
    }
  }

  lemma TriplesSnoc(file: File, combine: bool, workers: nat, c: nat)
    requires Readable(file) && workers >= 1
    ensures WorkerTriples(file, combine, workers, CoreIds(c + 1))
         == WorkerTriples(file, combine, workers, CoreIds(c)) + [Triple(WorkerValues(file, combine, workers, c))]
  {
    hide WorkerValues, Readable, Triple;
  }

  lemma AddTriple(a: Vec, v: Vec, first: nat)
    ensures Add([Sum(a), |a|, first], Triple(v)) == [Sum(a + v), |a + v|, first + Triple(v)[2]]
  {
    hide Sum;
    SumConcat(a, v);
  }

  function PrefixTriple(file: File, combine: bool, workers: nat, c: nat): Vec
    requires Readable(file) && workers >= 1
  {
    var all := Flat(file, combine, 0, Bound(|file|, workers, c));
    [Sum(all), |all|, FirstValues(file, combine, workers, c)]
  }

  lemma PrefixTripleStep(file: File, combine: bool, workers: nat, c: nat)
    requires Readable(file) && workers >= 1
    ensures |PrefixTriple(file, combine, workers, c)| == 3
    ensures PrefixTriple(file, combine, workers, c + 1)
         == Add(PrefixTriple(file, combine, workers, c), Triple(WorkerValues(file, combine, workers, c)))
  {
    hide Bound, Readable, Flat, Triple, Add, Sum;
    BoundsGrow(|file|, workers, c);
    FlatSplit(file, combine, Bound(|file|, workers, c), Bound(|file|, workers, c + 1));
    AddTriple(Flat(file, combine, 0, Bound(|file|, workers, c)), WorkerValues(file, combine, workers, c),
              FirstValues(file, combine, workers, c));
  }

  /** In core order the slices are exactly all values, one after the other. */
  lemma {:induction false} TriplesInCoreOrder(file: File, combine: bool, workers: nat, c: nat)
    requires Readable(file) && workers >= 1
    ensures Fold(WorkerTriples(file, combine, workers, CoreIds(c)), 3) == PrefixTriple(file, combine, workers, c)
  {
    if c == 0 {
      assert |file| >= 1;
      BoundsCover(|file|, workers);
      assert WorkerTriples(file, combine, workers, CoreIds(0)) == [];
      assert Zeros(3) == [0, 0, 0];
    } else {
      hide Fold, Readable, CoreIds, WorkerTriples, Triple, Add, PrefixTriple, WorkerValues;
      TriplesInCoreOrder(file, combine, workers, c - 1);
      TriplesSnoc(file, combine, workers, c - 1);
      FoldSnoc(WorkerTriples(file, combine, workers, CoreIds(c - 1)),
               Triple(WorkerValues(file, combine, workers, c - 1)), 3);
      PrefixTripleStep(file, combine, workers, c - 1);
    }
  }

  lemma TriplesAnyArrival(file: File, combine: bool, workers: nat, arrivals: seq<nat>)
    requires Readable(file) && workers >= 1 && ArrivalOrder(arrivals, workers)
    ensures var all := Flat(file, combine, 0, |file|);
      Fold(WorkerTriples(file, combine, workers, arrivals), 3)
      == [Sum(all), |all|, FirstValues(file, combine, workers, workers)]
  {
    assert |file| >= 1;
    BoundsCover(|file|, workers);
    TriplesInCoreOrder(file, combine, workers, workers);
    var f: nat -> Vec :=
      i => if Readable(file) && workers >= 1 then Triple(WorkerValues(file, combine, workers, i)) else [];
    hide Triple, WorkerValues, Readable, Fold, Flat, FirstValues, Bound;
    assert WorkerTriples(file, combine, workers, arrivals) == Map(f, arrivals);
    assert WorkerTriples(file, combine, workers, CoreIds(workers)) == Map(f, CoreIds(workers));
    MapPermutes(f, arrivals, CoreIds(workers));
    FoldPermutation(WorkerTriples(file, combine, workers, arrivals),
                    WorkerTriples(file, combine, workers, CoreIds(workers)), 3);
  }

  lemma NextSlice(file: File, combine: bool, workers: nat, c: nat, x: nat)
    requires Readable(file) && workers >= 1
    ensures x in Flat(file, combine, 0, Bound(|file|, workers, c + 1))
       <==> x in Flat(file, combine, 0, Bound(|file|, workers, c)) || x in WorkerValues(file, combine, workers, c)
  {
    hide Bound, Readable, Flat;
    BoundsGrow(|file|, workers, c);
    FlatSplit(file, combine, Bound(|file|, workers, c), Bound(|file|, workers, c + 1));
  }

  lemma NothingYet(file: File, combine: bool, workers: nat)
    requires Readable(file) && workers >= 1
    ensures Flat(file, combine, 0, Bound(|file|, workers, 0)) == []
  {
    assert |file| >= 1;
    BoundsCover(|file|, workers);
  }

  /** The slices hold exactly the values of the file. */
  lemma {:induction false} SlicesHoldAll(file: File, combine: bool, workers: nat, c: nat, x: nat)
    requires Readable(file) && workers >= 1
    ensures x in Flat(file, combine, 0, Bound(|file|, workers, c))
       <==> exists i: nat :: i < c && x in WorkerValues(file, combine, workers, i)
  {
    hide Bound, Readable, Flat, WorkerValues;
    if c == 0 {
      NothingYet(file, combine, workers);
    } else {
      SlicesHoldAll(file, combine, workers, c - 1, x);
      NextSlice(file, combine, workers, c - 1, x);
    }
  }

  /** The values of all workers merged so far. */
  ghost predicate MergedOf(s: Stats, vs: seq<Vec>) {
    && (exists k :: 0 <= k < |vs| && s.maximum in vs[k])
    && (exists k :: 0 <= k < |vs| && s.minimum in vs[k])
    && (forall k, x :: 0 <= k < |vs| && x in vs[k] ==> s.minimum <= x <= s.maximum)
  }

  function MergeTwo(a: Stats, b: Stats): Stats {
    Stats(if a.maximum < b.maximum then b.maximum else a.maximum,
          if b.minimum < a.minimum then b.minimum else a.minimum,
          a.summary + b.summary, a.count + b.count)
  }

  lemma MergeStep(a: Stats, vs: seq<Vec>, b: Stats, v: Vec)
    requires MergedOf(a, vs) && StatsOf(b, v)
    ensures MergedOf(MergeTwo(a, b), vs + [v])
  {
    var all, m := vs + [v], MergeTwo(a, b);
    assert all[|vs|] == v;
    assert forall k :: 0 <= k < |vs| ==> all[k] == vs[k];
    assert forall k, x :: 0 <= k < |all| && x in all[k] ==> (k < |vs| && x in vs[k]) || x in v;
  }

  ghost function ValuesInOrder(file: File, combine: bool, workers: nat, ids: seq<nat>): (vs: seq<Vec>)
    requires Readable(file) && workers >= 1
    ensures |vs| == |ids| && forall k :: 0 <= k < |ids| ==> vs[k] == WorkerValues(file, combine, workers, ids[k])
  {
    seq(|ids|, k requires 0 <= k < |ids| => WorkerValues(file, combine, workers, ids[k]))
  }

  /** State of the parent after i results. */
  ghost predicate MergedSoFar(s: Stats, vs: seq<Vec>, ts: seq<Vec>, i: nat)
    requires i <= |vs| && |ts| == |vs| && SameLength(ts, 3)
  {
    var total := Fold(ts[..i], 3);
    MergedOf(s, vs[..i]) && s.summary == total[0] + total[2] && s.count == total[1]
  }

  lemma FirstMerged(s: Stats, vs: seq<Vec>, ts: seq<Vec>)
    requires |vs| >= 1 && |ts| == |vs| && ts[0] == Triple(vs[0]) && StatsOf(s, vs[0]) && SameLength(ts, 3)
    ensures MergedSoFar(s, vs, ts, 1)
  {
    FirstFold(ts, 3);
    assert vs[..1][0] == vs[0];
  }

  lemma NextMerged(s: Stats, vs: seq<Vec>, ts: seq<Vec>, i: nat, next: Stats)
    requires i < |vs| && |ts| == |vs| && ts[i] == Triple(vs[i]) && StatsOf(next, vs[i]) && SameLength(ts, 3)
    requires MergedSoFar(s, vs, ts, i)
    ensures MergedSoFar(MergeTwo(s, next), vs, ts, i + 1)
  {
    hide MergedOf, Fold;
    FoldNext(ts, i, 3);
    MergeStep(s, vs[..i], next, vs[i]);
    assert vs[..i] + [vs[i]] == vs[..i + 1];
  }

  lemma LastMerged(file: File, combine: bool, workers: nat, arrivals: seq<nat>, s: Stats)
    requires Readable(file) && workers >= 1 && ArrivalOrder(arrivals, workers) && |arrivals| == workers
    requires MergedSoFar(s, ValuesInOrder(file, combine, workers, arrivals),
                         WorkerTriples(file, combine, workers, arrivals), workers)
    ensures MergedCorrectly(s, Flat(file, combine, 0, |file|), FirstValues(file, combine, workers, workers))
  {
    var vs, ts := ValuesInOrder(file, combine, workers, arrivals), WorkerTriples(file, combine, workers, arrivals);
    assert vs[..workers] == vs && ts[..workers] == ts;
    hide Flat, Fold, WorkerTriples, ValuesInOrder, MergedOf, ArrivalOrder, Readable, IsMax, IsMin, Sum, FirstValues;
    TriplesAnyArrival(file, combine, workers, arrivals);
    MergedAll(file, combine, workers, arrivals, s);
  }

  /** The merged statistics of the flattened data: maximum, minimum and count are right, and the sum
      is too large by the first value of each slice. */
  ghost predicate MergedCorrectly(s: Stats, all: Vec, firstValues: nat) {
    IsMax(s.maximum, all) && IsMin(s.minimum, all) && s.count == |all| && s.summary == Sum(all) + firstValues
  }

  lemma ValueArrives(file: File, combine: bool, workers: nat, arrivals: seq<nat>, x: nat)
    requires Readable(file) && workers >= 1 && ArrivalOrder(arrivals, workers)
    ensures var vs := ValuesInOrder(file, combine, workers, arrivals);
      x in Flat(file, combine, 0, |file|) <==> exists k :: 0 <= k < |vs| && x in vs[k]
  {
    assert |file| >= 1;
    BoundsCover(|file|, workers);
    ArrivalCount(arrivals, workers);
    AllArrive(arrivals, workers);
    SlicesHoldAll(file, combine, workers, workers, x);
    hide Flat, WorkerValues, Readable, Bound, ArrivalOrder;
    var vs := ValuesInOrder(file, combine, workers, arrivals);
    if i: nat :| i < workers && x in WorkerValues(file, combine, workers, i) {
      assert i in arrivals;
      var k :| 0 <= k < |arrivals| && arrivals[k] == i;
      assert x in vs[k];
    }
  }

  lemma MergedAll(file: File, combine: bool, workers: nat, arrivals: seq<nat>, s: Stats)
    requires Readable(file) && workers >= 1 && ArrivalOrder(arrivals, workers)
    requires MergedOf(s, ValuesInOrder(file, combine, workers, arrivals))
    ensures IsMax(s.maximum, Flat(file, combine, 0, |file|)) && IsMin(s.minimum, Flat(file, combine, 0, |file|))
  {
    hide Flat, WorkerValues, ArrivalOrder, ValuesInOrder;
    forall x {
      ValueArrives(file, combine, workers, arrivals, x);
    }
  }

  lemma AllArrive(arrivals: seq<nat>, workers: nat)
    requires ArrivalOrder(arrivals, workers)
    ensures forall i: nat :: i < workers ==> i in arrivals
  {
    forall i: nat | i < workers ensures i in arrivals {
      assert CoreIds(workers)[i] == i;
      assert i in multiset(CoreIds(workers));
    }
  }

  /** Some worker has nothing to do. */
  ghost predicate SomeSliceEmpty(file: File, combine: bool, workers: nat)
    requires Readable(file) && workers >= 1
  {
    exists i: nat :: i < workers && WorkerValues(file, combine, workers, i) == []
  }

  lemma EmptySlice(file: File, combine: bool, workers: nat, i: nat)
    requires Readable(file) && workers >= 1 && i < workers && WorkerValues(file, combine, workers, i) == []
    ensures SomeSliceEmpty(file, combine, workers)
  {
  }

  lemma OrderAt(file: File, combine: bool, workers: nat, arrivals: seq<nat>, k: nat)
    requires Readable(file) && workers >= 1 && k < |arrivals|
    ensures var v := WorkerValues(file, combine, workers, arrivals[k]);
      && ValuesInOrder(file, combine, workers, arrivals)[k] == v
      && WorkerTriples(file, combine, workers, arrivals)[k] == Triple(v)
  {
    hide WorkerValues, Triple;
  }

  lemma NoSliceEmpty(file: File, combine: bool, workers: nat, arrivals: seq<nat>)
    requires Readable(file) && workers >= 1 && ArrivalOrder(arrivals, workers)
    requires forall k :: 0 <= k < |arrivals| ==> WorkerValues(file, combine, workers, arrivals[k]) != []
    ensures !SomeSliceEmpty(file, combine, workers)
  {
    hide WorkerValues, Readable;
    AllArrive(arrivals, workers);
    forall i: nat | i < workers ensures WorkerValues(file, combine, workers, i) != [] {
      assert i in arrivals;
      var k :| 0 <= k < |arrivals| && arrivals[k] == i;
    }
  }

  /** The loop over the remaining results. */
  method MergeRest(file: File, combine: bool, workers: nat, arrivals: seq<nat>, first: Stats) returns (r: Option<Stats>)
    requires Readable(file) && workers >= 1 && |arrivals| == workers && Cores(arrivals, workers)
    requires Merging(first, file, combine, workers, arrivals, 1)
    ensures r.None? ==> SomeSliceEmpty(file, combine, workers)
    ensures r.Some? ==> Merging(r.value, file, combine, workers, arrivals, workers)
  {
    hide WorkerValues, Readable, StatsOf, MergeTwo, SomeSliceEmpty, Merging;
    var merged := first;
    for i := 1 to workers
      invariant Merging(merged, file, combine, workers, arrivals, i)
    {
      var next := VideoWorker(file, combine, workers, arrivals[i]);
      if next.None? {
        EmptySlice(file, combine, workers, arrivals[i]);
        return None;
      }
      MergeNext(file, combine, workers, arrivals, merged, i, next.value);
      merged := MergeTwo(merged, next.value);
    }
    r := Some(merged);
  }

  ghost predicate Cores(arrivals: seq<nat>, workers: nat) {
    forall i :: 0 <= i < |arrivals| ==> arrivals[i] < workers
  }

  /** The first i results have arrived, none of them failed, and they are merged in s. */
  ghost predicate Merging(s: Stats, file: File, combine: bool, workers: nat, arrivals: seq<nat>, i: nat)
    requires Readable(file) && workers >= 1 && i <= |arrivals|
  {
    && (forall k :: 0 <= k < i ==> WorkerValues(file, combine, workers, arrivals[k]) != [])
    && MergedSoFar(s, ValuesInOrder(file, combine, workers, arrivals),
                   WorkerTriples(file, combine, workers, arrivals), i)
  }

  lemma MergeFirst(file: File, combine: bool, workers: nat, arrivals: seq<nat>, s: Stats)
    requires Readable(file) && workers >= 1 && |arrivals| >= 1
    requires StatsOf(s, WorkerValues(file, combine, workers, arrivals[0]))
    ensures Merging(s, file, combine, workers, arrivals, 1)
  {
    hide WorkerValues, Readable, MergedSoFar, Triple, WorkerTriples, ValuesInOrder;
    OrderAt(file, combine, workers, arrivals, 0);
    FirstMerged(s, ValuesInOrder(file, combine, workers, arrivals), WorkerTriples(file, combine, workers, arrivals));
  }

  lemma MergeNext(file: File, combine: bool, workers: nat, arrivals: seq<nat>, s: Stats, i: nat, next: Stats)
    requires Readable(file) && workers >= 1 && i < |arrivals|
    requires Merging(s, file, combine, workers, arrivals, i)
    requires StatsOf(next, WorkerValues(file, combine, workers, arrivals[i]))
    ensures Merging(MergeTwo(s, next), file, combine, workers, arrivals, i + 1)
  {
    hide WorkerValues, Readable, MergedSoFar, MergeTwo, Triple, WorkerTriples, ValuesInOrder;
    OrderAt(file, combine, workers, arrivals, i);
    NextMerged(s, ValuesInOrder(file, combine, workers, arrivals),
               WorkerTriples(file, combine, workers, arrivals), i, next);
  }

  /** Every worker starts at a dataset of the file. */
  ghost predicate StartsInside(n: nat, workers: nat)
    requires workers >= 1
  {
    forall i: nat :: i < workers ==> StartOf(n, workers, i) < n
  }

  /** Where worker i starts. */
  ghost function StartOf(n: nat, workers: nat, i: nat): nat
    requires workers >= 1
  {
    (n + workers - 1) / workers * i
  }

  /** The first values of the datasets at which the workers start. */
  ghost function FirstsOf(ds: seq<Dataset>, combine: bool, workers: nat): (v: Vec)
    requires Filled(ds) && workers >= 1 && StartsInside(|ds|, workers)
    ensures |v| == workers
  {
    seq(workers, i requires 0 <= i < workers =>
      Values(ds[StartOf(|ds|, workers, i)], combine)[0])
  }

  lemma {:induction false} FirstOfAll(ds: seq<Dataset>, combine: bool)
    requires Filled(ds) && ds != []
    ensures AllValues(ds, combine) != [] && AllValues(ds, combine)[0] == Values(ds[0], combine)[0]
  {
    hide Values;
    if |ds| > 1 {
      FirstOfAll(ds[..|ds| - 1], combine);
    }
  }

  /** A worker that has values starts with those of its first dataset. */
  lemma FirstOfSlice(file: File, combine: bool, workers: nat, i: nat)
    requires Readable(file) && workers >= 1 && WorkerValues(file, combine, workers, i) != []
    ensures Filled(Series(file)) && StartOf(|file|, workers, i) < |file|
    ensures Triple(WorkerValues(file, combine, workers, i))[2]
         == Values(Series(file)[StartOf(|file|, workers, i)], combine)[0]
  {
    SliceEmpty(file, combine, workers, i);
    SeriesFilled(file);
    WorkerIsValues(file, combine, workers, i);
    SliceStart(file, workers, i);
    hide Series, Readable, Filled, WorkerValues, Values, AllValues, Slice;
    FirstOfAll(Slice(file, workers, i), combine);
  }

  lemma SliceStart(file: File, workers: nat, i: nat)
    requires Readable(file) && workers >= 1 && StartOf(|file|, workers, i) < |file|
    ensures Slice(file, workers, i) != [] && Slice(file, workers, i)[0] == Series(file)[StartOf(|file|, workers, i)]
  {
    hide Series, Readable;
    assert |file| >= 1;
    CeilDiv(|file|, workers);
    SliceEnds(|file|, workers, i);
    SliceEnds(|file|, workers, i + 1);
    BoundsGrow(|file|, workers, i);
    hide Bound;
  }

  lemma AllStartInside(file: File, combine: bool, workers: nat)
    requires Readable(file) && workers >= 1 && !SomeSliceEmpty(file, combine, workers)
    ensures StartsInside(|file|, workers)
  {
    hide WorkerValues, Readable, StartOf;
    forall i: nat | i < workers ensures StartOf(|file|, workers, i) < |file| {
      FirstOfSlice(file, combine, workers, i);
    }
  }

  lemma SumNext(v: Vec, i: nat)
    requires i < |v|
    ensures Sum(v[..i + 1]) == Sum(v[..i]) + v[i]
  {
    assert v[..i + 1][..i] == v[..i];
  }

  lemma {:induction false} FirstsSum(file: File, combine: bool, workers: nat, firsts: Vec, c: nat)
    requires Readable(file) && workers >= 1 && c <= |firsts|
    requires forall i: nat :: i < |firsts| ==> Triple(WorkerValues(file, combine, workers, i))[2] == firsts[i]
    ensures FirstValues(file, combine, workers, c) == Sum(firsts[..c])
  {
    hide Readable, WorkerValues, Triple;
    if c == 0 {
      assert firsts[..0] == [];
    } else {
      hide Sum;
      FirstsSum(file, combine, workers, firsts, c - 1);
      SumNext(firsts, c - 1);
    }
  }

  lemma FirstsOfSlices(file: File, combine: bool, workers: nat)
    requires Readable(file) && workers >= 1 && !SomeSliceEmpty(file, combine, workers)
    ensures Filled(Series(file)) && StartsInside(|file|, workers)
    ensures FirstValues(file, combine, workers, workers) == Sum(FirstsOf(Series(file), combine, workers))
  {
    SeriesFilled(file);
    AllStartInside(file, combine, workers);
    hide Series, FirstValues, Sum, Readable, Filled, WorkerValues, Triple, StartOf;
    var firsts := FirstsOf(Series(file), combine, workers);
    forall i: nat | i < |firsts| ensures Triple(WorkerValues(file, combine, workers, i))[2] == firsts[i] {
      FirstOfSlice(file, combine, workers, i);
    }
    FirstsSum(file, combine, workers, firsts, workers);
    assert firsts[..workers] == firsts;
  }

  /** print_min_max_mean for a video, with the results arriving in the given order of core ids.
      None: some worker failed, and the parent waits for its result forever. */
  method MergedStats(file: File, combine: bool, workers: nat, arrivals: seq<nat>) returns (r: Option<Stats>)
    requires Readable(file) && workers >= 1 && ArrivalOrder(arrivals, workers)
    ensures r.None? <==> SomeSliceEmpty(file, combine, workers)
    ensures r.Some? ==>
      MergedCorrectly(r.value, Flat(file, combine, 0, |file|), FirstValues(file, combine, workers, workers))
    ensures Filled(Series(file))
    ensures r.Some? ==>
      StartsInside(|file|, workers)
      && MergedCorrectly(r.value, AllValues(Series(file), combine), Sum(FirstsOf(Series(file), combine, workers)))
  {
    ArrivalCount(arrivals, workers);
    WholeIsValues(file, combine);
    hide WorkerValues, Flat, ArrivalOrder, Readable, StatsOf, MergedSoFar, MergedCorrectly, FirstValues, SomeSliceEmpty,
         WorkerTriples, ValuesInOrder;
    var first := VideoWorker(file, combine, workers, arrivals[0]);
    if first.None? {
      EmptySlice(file, combine, workers, arrivals[0]);
      return None;
    }
    MergeFirst(file, combine, workers, arrivals, first.value);
    r := MergeRest(file, combine, workers, arrivals, first.value);
    if r.Some? {
      NoSliceEmpty(file, combine, workers, arrivals);
      LastMerged(file, combine, workers, arrivals, r.value);
      FirstsOfSlices(file, combine, workers);
    }
  }

  lemma {:induction false} ValueCount(written: seq<Dataset>, n: nat)
    requires Filled(written) && forall k :: 0 <= k < |written| ==> |written[k].cells| == n
    ensures |AllValues(written, false)| == |written| * n
  {
    if written != [] {
      hide Values, Filled, AllValues;
      var t, d := written[..|written| - 1], written[|written| - 1];
      assert written == t + [d];
      ValuesSnoc(t, d, false);
      ValueCount(t, n);
      CellsAreValues(d);
      MulStep(|t|, n);
    }
  }

  lemma ExtremesOfValues(written: seq<Dataset>, s: Stats)
    requires Filled(written)
    requires IsMax(s.maximum, AllValues(written, false)) && IsMin(s.minimum, AllValues(written, false))
    ensures forall k, x :: 0 <= k < |written| && x in written[k].cells ==> s.minimum <= x <= s.maximum
    ensures exists k :: 0 <= k < |written| && s.maximum in written[k].cells
    ensures exists k :: 0 <= k < |written| && s.minimum in written[k].cells
  {
    hide AllValues, Filled;
    ValuesOfWritten(written, s.maximum);
    ValuesOfWritten(written, s.minimum);
    forall k, x | 0 <= k < |written| && x in written[k].cells ensures s.minimum <= x <= s.maximum {
      ValuesOfWritten(written, x);
      assert x in AllValues(written, false);
    }
  }

  /** The merged statistics of a written file are those of all cells that were written. */
  lemma StatisticsOfWritten(written: seq<Dataset>, dimY: nat, dimX: nat, s: Stats, firstValues: nat)
    requires Measured(written, dimY, dimX) && Readable(FileOf(written)) && Filled(Series(FileOf(written)))
    requires MergedCorrectly(s, AllValues(Series(FileOf(written)), false), firstValues)
    ensures forall k, x :: 0 <= k < |written| && x in written[k].cells ==> s.minimum <= x <= s.maximum
    ensures exists k :: 0 <= k < |written| && s.maximum in written[k].cells
    ensures exists k :: 0 <= k < |written| && s.minimum in written[k].cells
    ensures s.count == |written| * (dimY * dimX)
  {
    hide Decimal.Print, Readable, Series, FileOf, Sum, AllValues, Filled, IsMax, IsMin;
    MeasuredIsReadable(written, dimY, dimX);
    ValueCount(written, dimY * dimX);
    ExtremesOfValues(written, s);
  }

  // ---------- when the merged result exists, and when its sum is right ----------

  lemma ChunkNotEmpty(file: File, key: nat, combine: bool)
    requires Readable(file) && key < |file|
    ensures ChunkAt(file, key, combine) != []
  {
    var d := file[Decimal.Print(0)];
    assert Decimal.Print(0) in file && WellShaped(d);
    MulMono(1, d.dimY, d.dimX);
  }

  lemma FlatEmpty(file: File, combine: bool, lo: nat, hi: nat)
    requires Readable(file) && hi <= |file|
    ensures Flat(file, combine, lo, hi) == [] <==> hi <= lo
  {
    if lo < hi {
      ChunkNotEmpty(file, hi - 1, combine);
    }
  }

  lemma SliceEmpty(file: File, combine: bool, workers: nat, i: nat)
    requires Readable(file) && workers >= 1
    ensures WorkerValues(file, combine, workers, i) == [] <==> |file| <= (|file| + workers - 1) / workers * i
  {
    assert |file| >= 1;
    hide Flat, Readable;
    CeilDiv(|file|, workers);
    SliceEnds(|file|, workers, i);
    SliceEnds(|file|, workers, i + 1);
    FlatEmpty(file, combine, Bound(|file|, workers, i), Bound(|file|, workers, i + 1));
  }

  /** The parent gets all results exactly when the last worker still has a dataset, that is when
      ceil(n / workers) * (workers - 1) < n. */
  lemma AllSlicesFilled(file: File, combine: bool, workers: nat)
    requires Readable(file) && workers >= 1
    ensures !SomeSliceEmpty(file, combine, workers)
       <==> (|file| + workers - 1) / workers * (workers - 1) < |file|
  {
    hide WorkerValues, Readable;
    SliceEmpty(file, combine, workers, workers - 1);
    if i: nat :| i < workers && WorkerValues(file, combine, workers, i) == [] {
      SliceEmpty(file, combine, workers, i);
      StartsGrow(|file|, workers, i);
    }
  }

  lemma StartsGrow(n: nat, workers: nat, i: nat)
    requires i < workers
    ensures (n + workers - 1) / workers * i <= (n + workers - 1) / workers * (workers - 1)
  {
    MulMono(i, workers - 1, (n + workers - 1) / workers);
  }

  lemma {:induction false} FirstValuesZero(file: File, combine: bool, workers: nat, c: nat)
    requires Readable(file) && workers >= 1
    ensures FirstValues(file, combine, workers, c) == 0
       <==> forall i: nat :: i < c ==> Triple(WorkerValues(file, combine, workers, i))[2] == 0
  {
    hide Readable, WorkerValues, Triple;
    if c > 0 {
      FirstValuesZero(file, combine, workers, c - 1);
    }
  }

  /** The sum, and with it the mean, is right exactly when every slice starts with the value 0. */
  lemma SumRightExactly(file: File, combine: bool, workers: nat, s: Stats)
    requires Readable(file) && workers >= 1 && !SomeSliceEmpty(file, combine, workers)
    requires MergedCorrectly(s, Flat(file, combine, 0, |file|), FirstValues(file, combine, workers, workers))
    ensures s.summary == Sum(Flat(file, combine, 0, |file|))
       <==> forall i: nat :: i < workers ==> WorkerValues(file, combine, workers, i)[0] == 0
  {
    hide WorkerValues, Flat, Readable, FirstValues, IsMax, IsMin, Sum;
    FirstValuesZero(file, combine, workers, workers);
    forall i: nat | i < workers
      ensures WorkerValues(file, combine, workers, i) != []
      ensures Triple(WorkerValues(file, combine, workers, i))[2] == WorkerValues(file, combine, workers, i)[0]
    {
    }
  }

  lemma SingleFile(file: File, d: Dataset)
    requires d == Dataset(1, 1, [5]) && file == FileOf([d])
    ensures Readable(file) && |file| == 1
    ensures ChunkAt(file, 0, false) == [5]
  {
    FileLookup([d]);
    WrittenIsReadable([d]);
  }

  lemma SingleSlice(file: File)
    requires Readable(file) && |file| == 1 && ChunkAt(file, 0, false) == [5]
    ensures Flat(file, false, 0, 1) == [5] && FirstValues(file, false, 1, 1) == 5
  {
    hide Readable, ChunkAt;
    assert Flat(file, false, 0, 1) == Flat(file, false, 0, 0) + [5];
    assert Bound(1, 1, 0) == 0 && Bound(1, 1, 1) == 1;
    hide Sum;
    assert WorkerValues(file, false, 1, 0) == [5];
    assert FirstValues(file, false, 1, 1) == FirstValues(file, false, 1, 0) + 5;
  }

  lemma SumOfOne(x: nat)
    ensures Sum([x]) == x
  {
    SumConcat([], [x]);
    assert [x][..0] == [];
  }

  /** One process and one dataset holding the single value 5: the reported sum is 10. */
  lemma SumTooLarge()
    ensures var file := FileOf([Dataset(1, 1, [5])]);
      && Readable(file)
      && (forall s :: MergedCorrectly(s, Flat(file, false, 0, 1), FirstValues(file, false, 1, 1))
            ==> s.summary == 10 && Sum(Flat(file, false, 0, 1)) == 5)
  {
    var d := Dataset(1, 1, [5]);
    var file := FileOf([d]);
    hide Readable, ChunkAt, Flat, FirstValues, Sum, FileOf, IsMax, IsMin;
    SingleFile(file, d);
    SingleSlice(file);
    SumOfOne(5);
  }
}
