/** The profiler: assembly loops of prime and probe on a machine with an LRU cache and a wrapping
    cycle counter. */
module Profile {
  import opened Words
  import opened Geometry
  import opened Lru
  import opened PrimeProbe

  /** One timing for every access of a trace: the low 32 bits of the cycles it took. */
  function Timings(c: Cache, xs: seq<Line>, ways: nat, loads: nat, latency: (nat, bool) -> nat): (r: seq<nat>)
    requires |c| >= 1 && ways >= 1
    ensures |r| == |xs|
  {
    if xs == [] then []
    else
      var t := xs[..|xs| - 1];
      var x := xs[|xs| - 1];
      Timings(c, t, ways, loads, latency) + [latency(loads + |t|, Hit(Run(c, t, ways), x)) % TWO_TO_32]
  }

  lemma {:induction false} TimingAt(c: Cache, xs: seq<Line>, k: nat, ways: nat, loads: nat, latency: (nat, bool) -> nat)
    requires |c| >= 1 && ways >= 1 && k < |xs|
    ensures Timings(c, xs, ways, loads, latency)[k]
         == latency(loads + k, Hit(Run(c, xs[..k], ways), xs[k])) % TWO_TO_32
  {
    if k < |xs| - 1 {
      TimingAt(c, xs[..|xs| - 1], k, ways, loads, latency);
      assert xs[..|xs| - 1][..k] == xs[..k];
    }
  }

  /** The processor as far as the profiler can tell: a cache, a cycle counter, and a latency for
      each load that may depend on anything, in particular on whether the load hits. */
  class Machine {
    const info: CacheInfo
    const phys: Translation
    const latency: (nat, bool) -> nat
    var cache: Cache
    var cycles: nat
    var loads: nat

    ghost predicate Valid()
      reads this
    {
      info.Valid() && ValidCache(cache, info.setCount, info.ways)
    }

    constructor (info: CacheInfo, phys: Translation, latency: (nat, bool) -> nat, cache: Cache, cycles: nat)
      requires info.Valid() && ValidCache(cache, info.setCount, info.ways)
      ensures Valid() && this.info == info && this.phys == phys && this.latency == latency
      ensures this.cache == cache && this.cycles == cycles && loads == 0
    {
      this.info, this.phys, this.latency := info, phys, latency;
      this.cache, this.cycles, this.loads := cache, cycles, 0;
    }

    /** `mov (address), %rax` between two fences. */
    method Load(address: Word)
      requires Valid()
      modifies this
      ensures var x := phys(address) / info.lineSize;
              && cache == Access(old(cache), x, info.ways)
              && cycles == old(cycles) + latency(old(loads), Hit(old(cache), x))
      ensures Valid() && loads == old(loads) + 1
    {
      var x := phys(address) / info.lineSize;
      RunValid(cache, [x], info.setCount, info.ways);
      assert Run(cache, [x], info.ways) == Access(Run(cache, [], info.ways), x, info.ways) by {
        assert [x][..0] == [];
      }
      cycles := cycles + latency(loads, Hit(cache, x));
      cache := Access(cache, x, info.ways);
      loads := loads + 1;
    }

    /** `rdpmc`: the low half of the counter, which is all that the code keeps. */
    method ReadCounter() returns (eax: nat)
      ensures eax == cycles % TWO_TO_32 && eax < TWO_TO_32
    {
      eax := cycles % TWO_TO_32;
    }

    /** Accesses of other code: the victim, or anything between two iterations. */
    method Interfere(lines: seq<Line>)
      requires Valid()
      modifies this`cache
      ensures cache == Run(old(cache), lines, info.ways)
      ensures Valid()
    {
      RunValid(cache, lines, info.setCount, info.ways);
      cache := Run(cache, lines, info.ways);
    }

    /** The offset arithmetic shared by both loops: xor, add, imul, add, imul. */
    method BufferOffset(row: Word, way: Word) returns (offset: Word)
      requires info.Valid() && row < info.setCount && way < info.ways
      ensures offset == LineIndex(info, row, way) * info.lineSize
      ensures offset + info.lineSize <= info.totalSize
    {
      OffsetFits(info, row, way);
      ValidBounds(info);
      offset := 0;
      offset := AddW(offset, way);
      offset := MulW(offset, info.setCount);
      offset := AddW(offset, row);
      offset := MulW(offset, info.lineSize);
    }

    /** The load of prime. */
    method PlainLoad(buffer: Word, row: Word, way: Word)
      requires Valid() && buffer + info.totalSize <= TWO_TO_64 && row < info.setCount && way < info.ways
      modifies this
      ensures cache == Access(old(cache), Target(info, phys, buffer).LineAt(row, way), info.ways)
      ensures Valid() && loads == old(loads) + 1
    {
      hide WellFormed, Access, Hit;
      var offset := BufferOffset(row, way);
      Load(AddW(buffer, offset));
    }

    /** Inner loop of prime: the ways of one set downwards.  `jnl` jumps back while way >= 0 as a
        signed number, so way 0 is loaded too and the loop stops at -1. */
    method PrimeSet(buffer: Word, row: Word)
      requires Valid() && buffer + info.totalSize <= TWO_TO_64 && row < info.setCount
      modifies this
      ensures Valid() && loads == old(loads) + info.ways
      ensures cache == Run(old(cache), Reversed(Target(info, phys, buffer).Up(row)), info.ways)
    {
      hide Run, WellFormed, Access, Hit, Target.Up, Target.LineAt, Reversed;
      ghost var down := Reversed(Target(info, phys, buffer).Up(row));
      SetStart(Target(info, phys, buffer), cache, row, loads, latency);
      ghost var k := 0;
      ValidBounds(info);
      var way: Word := info.ways;
      way := Dec(way);
      while true
        invariant way < info.ways && k == info.ways - 1 - way && Valid()
        invariant cache == Run(old(cache), down[..k], info.ways) && loads == old(loads) + k
        decreases way
      {
        PlainLoad(buffer, row, way);
        RunNext(old(cache), down, k, info.ways);
        k := k + 1;
        way := Dec(way);
        if Less(way, 0) { break; }
      }
    }

    /** Loads every line of the buffer, set by set, the ways of a set downwards. */
    method Prime(buffer: Word)
      requires Valid() && buffer + info.totalSize <= TWO_TO_64
      modifies this
      ensures Valid() && loads == old(loads) + info.Lines()
      ensures cache == Run(old(cache), Target(info, phys, buffer).PrimeTrace(info.setCount), info.ways)
      ensures Target(info, phys, buffer).Placed() ==> Target(info, phys, buffer).FilledUp(cache)
    {
      hide Run, Timings, WellFormed, Target.Up, Target.PrimeTrace, Target.ProbeTrace;
      ghost var t := Target(info, phys, buffer);
      TraceRoom(t, 0);
      TraceStart(t, cache, loads, latency);
      ValidBounds(info);
      var row: Word := 0;
      while true
        invariant row < info.setCount && Valid()
        invariant cache == Run(old(cache), t.PrimeTrace(row), info.ways)
        invariant loads == old(loads) + |t.PrimeTrace(row)|
        decreases info.setCount - row
      {
        PrimeSet(buffer, row);
        PrimeStep(t, old(cache), row);
        row := Inc(row);
        if !Less(row, info.setCount) { break; }
      }
      Filled(t, old(cache));
    }

    /** The measured part of probe: two counter readings around one load. */
    method TimedLoad(buffer: Word, row: Word, way: Word) returns (elapsed: nat)
      requires Valid() && buffer + info.totalSize <= TWO_TO_64 && row < info.setCount && way < info.ways
      modifies this
      ensures var x := Target(info, phys, buffer).LineAt(row, way);
              && cache == Access(old(cache), x, info.ways)
              && elapsed == latency(old(loads), Hit(old(cache), x)) % TWO_TO_32
      ensures Valid() && loads == old(loads) + 1
    {
      hide WellFormed, Access, Hit;
      var offset := BufferOffset(row, way);
      var begin := ReadCounter();
      Load(AddW(buffer, offset));
      var end := ReadCounter();
      ElapsedWraps(old(cycles), cycles - old(cycles));
      elapsed := Sub32(end, begin);
    }

    /** Inner loop of probe: the ways of one set upwards, one timing per load. */
    method ProbeSet(buffer: Word, row: Word, result: array<nat>, resultIndex: Word) returns (next: Word)
      requires Valid() && buffer + info.totalSize <= TWO_TO_64 && row < info.setCount
      requires resultIndex + info.ways <= result.Length < TWO_TO_64
      modifies this, result
      ensures Valid() && loads == old(loads) + info.ways && next == resultIndex + info.ways
      ensures cache == Run(old(cache), Target(info, phys, buffer).Up(row), info.ways)
      ensures result[..resultIndex] == old(result[..resultIndex])
      ensures result[resultIndex..next]
           == Timings(old(cache), Target(info, phys, buffer).Up(row), info.ways, old(loads), latency)
    {
      hide Run, Timings, WellFormed, Access, Hit, Target.Up, Target.LineAt;
      ghost var up := Target(info, phys, buffer).Up(row);
      SetStart(Target(info, phys, buffer), cache, row, loads, latency);
      ValidBounds(info);
      var way: Word := 0;
      next := resultIndex;
      while true
        invariant way < info.ways && Valid() && next == resultIndex + way
        invariant cache == Run(old(cache), up[..way], info.ways) && loads == old(loads) + way
        invariant result[..resultIndex] == old(result[..resultIndex])
        invariant result[resultIndex..next] == Timings(old(cache), up[..way], info.ways, old(loads), latency)
        decreases info.ways - way
      {
        var cycles := TimedLoad(buffer, row, way);
        RunNext(old(cache), up, way, info.ways);
        TimingsNext(old(cache), up, way, info.ways, old(loads), latency);
        Store(result, resultIndex, next, cycles);
        way := Inc(way);
        next := Inc(next);
        if !Less(way, info.ways) { break; }
      }
    }

    /** Loads every line of the buffer, set by set, the ways of a set upwards, and stores the time
        of each load.  The store bypasses the cache. */
    method Probe(buffer: Word, result: array<nat>)
      requires Valid() && buffer + info.totalSize <= TWO_TO_64
      requires result.Length == info.Lines()
      modifies this, result
      ensures Valid() && loads == old(loads) + info.Lines()
      ensures cache == Run(old(cache), Target(info, phys, buffer).ProbeTrace(info.setCount), info.ways)
      ensures ProbeMatrix(Target(info, phys, buffer), old(cache), old(loads), latency, result[..])
      ensures Target(info, phys, buffer).Placed() ==> Target(info, phys, buffer).FilledDown(cache)
    {
      hide Run, Timings, WellFormed, Target.Up, Target.PrimeTrace, Target.ProbeTrace;
      ghost var t := Target(info, phys, buffer);
      TraceRoom(t, 0);
      TraceStart(t, cache, loads, latency);
      ValidBounds(info);
      var row: Word, resultIndex: Word := 0, 0;
      while true
        invariant row < info.setCount && Valid()
        invariant resultIndex == |t.ProbeTrace(row)| <= result.Length
        invariant cache == Run(old(cache), t.ProbeTrace(row), info.ways) && loads == old(loads) + resultIndex
        invariant result[..resultIndex] == Timings(old(cache), t.ProbeTrace(row), info.ways, old(loads), latency)
        decreases info.setCount - row
      {
        TraceRoom(t, row);
        ghost var earlier := result[..resultIndex];
        var next := ProbeSet(buffer, row, result, resultIndex);
        ProbeStep(t, old(cache), row, old(loads), latency);
        assert result[..next] == earlier + result[resultIndex..next];
        resultIndex := next;
        row := Inc(row);
        if !Less(row, info.setCount) { break; }
      }
      assert result[..resultIndex] == result[..];
      MatrixFromTrace(t, old(cache), old(loads), latency, result[..]);
      Filled(t, old(cache));
    }
  }

  /** Every cell of a result matrix holds the time of the load it belongs to. */
  ghost predicate ProbeMatrix(t: Target, c: Cache, loads: nat, latency: (nat, bool) -> nat, result: seq<nat>)
    requires t.info.Valid() && |c| >= 1
  {
    && |result| == t.info.Lines()
    && forall s: nat, w: nat :: s < t.info.setCount && w < t.info.ways ==>
         && Cell(t.info, s, w) < |result|
         && result[Cell(t.info, s, w)]
            == latency(loads + Cell(t.info, s, w), t.ProbeHits(c, s, w)) % TWO_TO_32
  }

  lemma CellTiming(t: Target, c: Cache, loads: nat, latency: (nat, bool) -> nat, xs: seq<Line>, s: nat, w: nat)
    requires t.info.Valid() && |c| >= 1 && s < t.info.setCount && w < t.info.ways
    requires xs == t.ProbeTrace(t.info.setCount)
    ensures Cell(t.info, s, w) < |xs|
    ensures Timings(c, xs, t.info.ways, loads, latency)[Cell(t.info, s, w)]
         == latency(loads + Cell(t.info, s, w), t.ProbeHits(c, s, w)) % TWO_TO_32
  {
    hide Run, Timings, Hit, Target.ProbeTrace, Target.PrimeTrace, Target.Up, Target.LineAt, Cell, CacheInfo.Valid;
    var k := Cell(t.info, s, w);
    TracePrefix(t, t.info.setCount, s, w);
    TraceShape(t, t.info.setCount, s, w);
    TimingAt(c, xs, k, t.info.ways, loads, latency);
  }

  lemma MatrixFromTrace(t: Target, c: Cache, loads: nat, latency: (nat, bool) -> nat, result: seq<nat>)
    requires t.info.Valid() && |c| >= 1
    requires result == Timings(c, t.ProbeTrace(t.info.setCount), t.info.ways, loads, latency)
    ensures ProbeMatrix(t, c, loads, latency, result)
  {
    hide Timings, Target.ProbeHits, Target.ProbeTrace, Target.PrimeTrace, Cell;
    TraceRoom(t, 0);
    forall s: nat, w: nat | s < t.info.setCount && w < t.info.ways
      ensures Cell(t.info, s, w) < |result|
      ensures result[Cell(t.info, s, w)]
           == latency(loads + Cell(t.info, s, w), t.ProbeHits(c, s, w)) % TWO_TO_32
    {
      CellTiming(t, c, loads, latency, t.ProbeTrace(t.info.setCount), s, w);
    }
  }

  lemma OffsetFits(info: CacheInfo, s: nat, w: nat)
    requires info.Valid() && s < info.setCount && w < info.ways
    ensures w * info.setCount <= LineIndex(info, s, w) < TWO_TO_32
    ensures LineIndex(info, s, w) * info.lineSize + info.lineSize <= info.totalSize
  {
    ValidSizes(info);
    IndexOfPlace(info, s, w);
    ValidBounds(info);
    hide CacheInfo.Valid, CacheInfo.Lines;
    MulMono(LineIndex(info, s, w) + 1, info.Lines(), info.lineSize);
  }

  lemma TraceStart(t: Target, c: Cache, loads: nat, latency: (nat, bool) -> nat)
    requires t.info.Valid() && |c| >= 1
    ensures |t.PrimeTrace(0)| == |t.ProbeTrace(0)| == 0
    ensures Run(c, t.PrimeTrace(0), t.info.ways) == Run(c, t.ProbeTrace(0), t.info.ways) == c
    ensures Timings(c, t.ProbeTrace(0), t.info.ways, loads, latency) == []
  {
  }

  lemma SetStart(t: Target, c: Cache, row: nat, loads: nat, latency: (nat, bool) -> nat)
    requires t.info.Valid() && |c| >= 1
    ensures var up := t.Up(row); var down := Reversed(up);
      && |up| == |down| == t.info.ways
      && (forall w :: 0 <= w < t.info.ways ==> up[w] == t.LineAt(row, w))
      && (forall k :: 0 <= k < t.info.ways ==> down[k] == t.LineAt(row, t.info.ways - 1 - k))
      && Run(c, up[..0], t.info.ways) == Run(c, down[..0], t.info.ways) == c
      && Timings(c, up[..0], t.info.ways, loads, latency) == []
  {
  }

  lemma RunNext(c: Cache, xs: seq<Line>, k: nat, ways: nat)
    requires |c| >= 1 && ways >= 1 && k < |xs|
    ensures Run(c, xs[..k + 1], ways) == Access(Run(c, xs[..k], ways), xs[k], ways)
    ensures k + 1 == |xs| ==> xs[..k + 1] == xs
  {
    assert xs[..k + 1][..k] == xs[..k];
  }

  lemma PrimeStep(t: Target, c: Cache, row: nat)
    requires t.info.Valid() && |c| >= 1
    ensures Run(c, t.PrimeTrace(row + 1), t.info.ways)
         == Run(Run(c, t.PrimeTrace(row), t.info.ways), Reversed(t.Up(row)), t.info.ways)
    ensures |t.PrimeTrace(row + 1)| == |t.PrimeTrace(row)| + t.info.ways
  {
    RunConcat(c, t.PrimeTrace(row), Reversed(t.Up(row)), t.info.ways);
  }

  lemma ProbeStep(t: Target, c: Cache, row: nat, loads: nat, latency: (nat, bool) -> nat)
    requires t.info.Valid() && |c| >= 1
    ensures var before := Run(c, t.ProbeTrace(row), t.info.ways);
      && Run(c, t.ProbeTrace(row + 1), t.info.ways) == Run(before, t.Up(row), t.info.ways)
      && Timings(c, t.ProbeTrace(row + 1), t.info.ways, loads, latency)
         == Timings(c, t.ProbeTrace(row), t.info.ways, loads, latency)
            + Timings(before, t.Up(row), t.info.ways, loads + |t.ProbeTrace(row)|, latency)
    ensures |t.ProbeTrace(row + 1)| == |t.ProbeTrace(row)| + t.info.ways
  {
    hide Run, Timings;
    RunConcat(c, t.ProbeTrace(row), t.Up(row), t.info.ways);
    TimingsConcat(c, t.ProbeTrace(row), t.Up(row), t.info.ways, loads, latency);
  }

  /** `movnti` of one result. */
  method Store(result: array<nat>, from: nat, index: nat, value: nat)
    requires from <= index < result.Length
    modifies result
    ensures result[from..index + 1] == old(result[from..index]) + [value]
    ensures result[..from] == old(result[..from])
  {
    result[index] := value;
  }

  lemma TimingsNext(c: Cache, xs: seq<Line>, k: nat, ways: nat, loads: nat, latency: (nat, bool) -> nat)
    requires |c| >= 1 && ways >= 1 && k < |xs|
    ensures Timings(c, xs[..k + 1], ways, loads, latency)
         == Timings(c, xs[..k], ways, loads, latency)
            + [latency(loads + k, Hit(Run(c, xs[..k], ways), xs[k])) % TWO_TO_32]
  {
    assert xs[..k + 1][..k] == xs[..k];
  }

  lemma TimingsSnoc(c: Cache, t: seq<Line>, x: Line, ways: nat, loads: nat, latency: (nat, bool) -> nat)
    requires |c| >= 1 && ways >= 1
    ensures Timings(c, t + [x], ways, loads, latency)
         == Timings(c, t, ways, loads, latency) + [latency(loads + |t|, Hit(Run(c, t, ways), x)) % TWO_TO_32]
  {
    assert (t + [x])[..|t|] == t;
  }

  lemma {:induction false} TimingsConcat(c: Cache, a: seq<Line>, b: seq<Line>, ways: nat, loads: nat,
                                         latency: (nat, bool) -> nat)
    requires |c| >= 1 && ways >= 1
    ensures Timings(c, a + b, ways, loads, latency)
         == Timings(c, a, ways, loads, latency) + Timings(Run(c, a, ways), b, ways, loads + |a|, latency)
  {
    if b == [] {
      assert a + b == a;
    } else {
      hide Run, Timings, Hit;
      var t, x := b[..|b| - 1], b[|b| - 1];
      TimingsConcat(c, a, t, ways, loads, latency);
      TimingsConcatSnoc(c, a, t, x, ways, loads, latency);
      assert b == t + [x];
    }
  }

  lemma TimingsConcatSnoc(c: Cache, a: seq<Line>, t: seq<Line>, x: Line, ways: nat, loads: nat, latency: (nat,
                          bool) -> nat)
    requires |c| >= 1 && ways >= 1
    requires Timings(c, a + t, ways, loads, latency)
          == Timings(c, a, ways, loads, latency) + Timings(Run(c, a, ways), t, ways, loads + |a|, latency)
    ensures Timings(c, a + (t + [x]), ways, loads, latency)
         == Timings(c, a, ways, loads, latency) + Timings(Run(c, a, ways), t + [x], ways, loads + |a|, latency)
  {
    hide Run, Timings, Hit;
    assert a + (t + [x]) == a + t + [x];
    RunConcat(c, a, t, ways);
    TimingsSnoc(c, a + t, x, ways, loads, latency);
    TimingsSnoc(Run(c, a, ways), t, x, ways, loads + |a|, latency);
    assert |a + t| == |a| + |t|;
  }
}
