/** The whole measurement: find an aligned buffer, profile it, store the matrices. */
module Measurement {
  import opened Words
  import opened Errors
  import opened Geometry
  import opened Lru
  import opened PrimeProbe
  import opened Profile
  import opened Output
  import opened Rounds
  import opened Alignment
  import opened Alloc
  import opened AllocContract
  import opened Visualize
  import Decimal

  /** Accesses to memory that is not part of the hugepage pool. */
  ghost predicate OutsidePool(q: Request, v: seq<Line>)
    requires q.Valid()
  {
    forall x :: x in v ==> x / (q.plat.hugeSize / q.info.lineSize) !in q.plat.pool
  }

  function TargetOf(q: Request, m: Mapping, buffer: Word): Target
    requires q.plat.hugeSize >= 1
  {
    Target(q.info, Phys(q.plat, m), buffer)
  }

  lemma BufferEnds(q: Request, m: Mapping, b: Word)
    requires q.Valid() && ValidMapping(q.plat, m) && Backed(q.plat, m, b, q.Size())
    ensures b + q.info.totalSize <= TWO_TO_64
  {
    hide Platform.Valid, CacheInfo.Valid;
    var last := b / q.plat.hugeSize + q.Size() - 1;
    CeilDiv(q.info.totalSize, q.plat.hugeSize);
    assert last in m;
    LastByte(b, q.plat.hugeSize, q.Size(), q.info.totalSize);
  }

  lemma LastByte(b: nat, huge: nat, n: nat, total: nat)
    requires huge >= 1 && b % huge == 0 && total <= n * huge
    ensures b + total <= (b / huge + n) * huge
  {
    DivModBounds(b, huge);
    assert (b / huge + n) * huge == b / huge * huge + n * huge;
  }

  lemma UsableIsPlaced(q: Request, m: Mapping, b: Word)
    requires q.Valid() && ValidMapping(q.plat, m) && Usable(q, m, Some(b))
    ensures TargetOf(q, m, b).Placed()
  {
    hide InPlace, Phys, Platform.Valid, CacheInfo.Valid;
    BufferEnds(q, m, b);
  }

  /** The physical line behind a place of the buffer lies in a frame of the pool. */
  lemma LineFrame(q: Request, m: Mapping, b: Word, s: nat, w: nat)
    requires q.Valid() && ValidMapping(q.plat, m) && Backed(q.plat, m, b, q.Size())
    requires s < q.info.setCount && w < q.info.ways
    ensures TargetOf(q, m, b).LineAt(s, w) / (q.plat.hugeSize / q.info.lineSize) in q.plat.pool
  {
    hide Phys, Platform.Valid, CacheInfo.Valid;
    OffsetFits(q.info, s, w);
    AddressFrame(q, m, b, LineIndex(q.info, s, w) * q.info.lineSize);
  }

  lemma AddressFrame(q: Request, m: Mapping, b: Word, offset: nat)
    requires q.Valid() && ValidMapping(q.plat, m) && Backed(q.plat, m, b, q.Size()) && offset < q.info.totalSize
    ensures Phys(q.plat, m)(b + offset) / q.info.lineSize / (q.plat.hugeSize / q.info.lineSize) in q.plat.pool
  {
    hide Platform.Valid, CacheInfo.Valid;
    var H := q.plat.hugeSize;
    DivModBounds(H, q.info.lineSize);
    BlockOfOffset(b, H, offset, q.info.totalSize);
    var v := (b + offset) / H;
    assert v in m;
    DivModBounds(b + offset, H);
    FrameOfAddress(m[v], H, q.info.lineSize, H / q.info.lineSize, (b + offset) % H, m[v] * H + (b + offset) % H);
  }

  lemma FrameOfAddress(f: nat, huge: nat, line: nat, r: nat, o: nat, x: nat)
    requires line >= 1 && r >= 1 && r * line == huge && o < huge && x == f * huge + o
    ensures x / line / r == f
  {
    SplitAddress(x, line, r);
    DivModUnique(f, o, huge);
  }

  lemma VictimIsForeign(q: Request, m: Mapping, b: Word, v: seq<Line>)
    requires q.Valid() && ValidMapping(q.plat, m) && Backed(q.plat, m, b, q.Size()) && OutsidePool(q, v)
    ensures TargetOf(q, m, b).Foreign(v)
  {
    var t := TargetOf(q, m, b);
    forall s, w | 0 <= s < q.info.setCount && 0 <= w < q.info.ways ensures t.LineAt(s, w) !in v {
      LineFrame(q, m, b, s, w);
    }
  }

  /** Dataset j shows, in every row s, min(k, ways) slow cells in the highest columns, k being the
      number of distinct lines of set s that the victim touched in iteration j. */
  ghost predicate ShowsNoise(info: CacheInfo, file: File, rounds: seq<Round>, threshold: nat, j: nat, s: nat)
    requires info.setCount >= 1 && j < |rounds|
  {
    var k := |LinesIn(rounds[j].victim, s, info.setCount)|;
    var seen := if k < info.ways then k else info.ways;
    && Decimal.Print(j) in file
    && file[Decimal.Print(j)].dimY == info.setCount && file[Decimal.Print(j)].dimX == info.ways
    && SlowWays(info, file[Decimal.Print(j)].cells, threshold, s) == Range(info.ways - seen, info.ways)
    && |SlowWays(info, file[Decimal.Print(j)].cells, threshold, s)| == seen
  }

  lemma FileShowsNoise(t: Target, rounds: seq<Round>, first: nat, latency: (nat, bool) -> nat,
                       matrices: seq<seq<nat>>, threshold: nat, j: nat, s: nat)
    requires t.info.Valid() && RunShows(t, rounds, first, latency, matrices) && Separates(latency, threshold)
    requires j < |matrices| && s < t.info.setCount
    ensures ShowsNoise(t.info, FileOf(Datasets(t.info, matrices)), rounds, threshold, j, s)
  {
    hide NoiseMatrix, SlowWays, Separates;
    FileLookup(Datasets(t.info, matrices));
    SlowCells(t, rounds[j].victim, LoadsBefore(first, t.info.Lines(), j) + t.info.Lines(), latency, matrices[j],
              threshold, s);
  }

  lemma FileReadable(t: Target, rounds: seq<Round>, first: nat, latency: (nat, bool) -> nat, matrices: seq<seq<nat>>)
    requires t.info.Valid() && RunShows(t, rounds, first, latency, matrices) && |matrices| >= 1
    ensures Readable(FileOf(Datasets(t.info, matrices)))
  {
    ValidSizes(t.info);
    var written := Datasets(t.info, matrices);
    forall k | 0 <= k < |written| ensures WellShaped(written[k]) {
      MatrixSize(t, rounds[k].victim, LoadsBefore(first, t.info.Lines(), k) + t.info.Lines(), latency, matrices[k]);
    }
    WrittenIsReadable(written);
  }

  /** The profile mode of main, writing to a fresh HDF5 file.  Whenever the search ends with ERROR_NONE,
      for a buffer of any size, the file holds one dataset per iteration, it can be read back, and each
      dataset shows exactly the victim of its own iteration. */
  method Measure(k: Kernel, q: Request, latency: (nat, bool) -> nat, cache: Cache, cycles: nat,
                 iterations: nat, out: Writer, rounds: seq<Round>, ghost threshold: nat)
    returns (err: Error)
    requires q.Valid() && k.plat == q.plat && q.maxTries >= 1
    requires ValidMapping(q.plat, k.mapped) && FoundBy(q, k.mapped)
    requires ValidCache(cache, q.info.setCount, q.info.ways) && Separates(latency, threshold)
    requires forall j :: 0 <= j < |rounds| ==> OutsidePool(q, rounds[j].victim)
    requires NoFaults(rounds) && iterations < TWO_TO_31 && RoundCount(iterations, |rounds|) <= TWO_TO_64
    requires out.Consistent() && out.written == []
    modifies k, out, out.std
    ensures err == ErrNone
    ensures |out.h5| <= |rounds| && (iterations >= 1 ==> |out.h5| <= iterations)
    ensures if iterations == 0 then |out.h5| == |rounds| else |out.h5| == iterations || |out.h5| == |rounds|
    ensures |out.h5| >= 1 ==> Readable(out.h5)
    ensures forall j, s :: 0 <= j < |out.h5| && 0 <= s < q.info.setCount ==>
      ShowsNoise(q.info, out.h5, rounds, threshold, j, s)
  {
    hide FoundBy, Usable, Fits, ValidMapping, AllocOutcome, Target.Placed, Target.Foreign,
         OutsidePool, RunShows, ShowsNoise, Separates, FileOf, Datasets, Readable;
    assert q.info.Valid() by { InfoValid(q); }
    FoundIsUsable(q, k.mapped);
    var buffer;
    err, buffer := AllocAligned(k, q);
    UsableBuffer(q, k.mapped, buffer);
    UsableIsPlaced(q, k.mapped, buffer.value);
    var m := new Machine(q.info, Phys(q.plat, k.mapped), latency, cache, cycles);
    forall j | 0 <= j < |rounds| ensures TargetOf(q, k.mapped, buffer.value).Foreign(rounds[j].victim) {
      VictimIsForeign(q, k.mapped, buffer.value, rounds[j].victim);
    }
    ghost var t := TargetOf(q, k.mapped, buffer.value);
    ghost var matrices;
    err, matrices := ProfileCache(m, buffer.value, iterations, out, rounds, true, true);
    assert out.written == Datasets(q.info, matrices);
    FileLookup(Datasets(q.info, matrices));
    if |matrices| >= 1 {
      FileReadable(t, rounds, 0, latency, matrices);
    }
    forall j, s | 0 <= j < |matrices| && 0 <= s < q.info.setCount
      ensures ShowsNoise(q.info, out.h5, rounds, threshold, j, s)
    {
      FileShowsNoise(t, rounds, 0, latency, matrices, threshold, j, s);
    }
  }

  /** The same for a buffer of one hugepage: it is enough that a free hugepage is aligned, whatever an
      honest kernel answers. */
  method MeasureOneHugepage(k: Kernel, q: Request, latency: (nat, bool) -> nat, cache: Cache, cycles: nat,
                            iterations: nat, out: Writer, rounds: seq<Round>, ghost threshold: nat)
    returns (err: Error)
    requires q.Valid() && k.plat == q.plat && q.Size() == 1 && q.maxTries >= 1
    requires Honest(q) && ValidMapping(q.plat, k.mapped) && Roomy(q, k.mapped)
    requires |Free(q.plat, k.mapped)| <= q.maxTries && SomeAligned(q, k.mapped)
    requires ValidCache(cache, q.info.setCount, q.info.ways) && Separates(latency, threshold)
    requires forall j :: 0 <= j < |rounds| ==> OutsidePool(q, rounds[j].victim)
    requires NoFaults(rounds) && iterations < TWO_TO_31 && RoundCount(iterations, |rounds|) <= TWO_TO_64
    requires out.Consistent() && out.written == []
    modifies k, out, out.std
    ensures err == ErrNone
    ensures |out.h5| <= |rounds| && (iterations >= 1 ==> |out.h5| <= iterations)
    ensures if iterations == 0 then |out.h5| == |rounds| else |out.h5| == iterations || |out.h5| == |rounds|
    ensures |out.h5| >= 1 ==> Readable(out.h5)
    ensures forall j, s :: 0 <= j < |out.h5| && 0 <= s < q.info.setCount ==>
      ShowsNoise(q.info, out.h5, rounds, threshold, j, s)
  {
    hide SomeAligned, Honest, Roomy, Free, Fits, ValidMapping, FoundBy, OutsidePool, ShowsNoise, Separates, Readable;
    FoundWhenAligned(q, k.mapped);
    err := Measure(k, q, latency, cache, cycles, iterations, out, rounds, threshold);
  }

  lemma InfoValid(q: Request)
    requires q.Valid()
    ensures q.info.Valid()
  {
  }

  lemma FoundWhenAligned(q: Request, m0: Mapping)
    requires q.Valid() && q.Size() == 1 && Honest(q) && ValidMapping(q.plat, m0) && Roomy(q, m0)
    requires q.maxTries >= 1 && |Free(q.plat, m0)| <= q.maxTries && SomeAligned(q, m0)
    ensures FoundBy(q, m0)
  {
    hide SearchFrom, Honest, Roomy, Free, SomeAligned;
    SearchComplete(q, m0, [], None);
  }

  lemma UsableBuffer(q: Request, m: Mapping, buffer: Option<Word>)
    requires q.Valid() && Usable(q, m, buffer)
    ensures buffer.Some? && Backed(q.plat, m, buffer.value, q.Size())
  {
  }
}
