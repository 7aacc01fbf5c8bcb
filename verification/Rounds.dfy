/** The measurement loop of the profiler: prime, yield to the victim, probe, write one matrix. */
module Rounds {
  import opened Words
  import opened Errors
  import opened Geometry
  import opened Lru
  import opened PrimeProbe
  import opened Profile
  import opened Output

  /** What the environment does during one iteration: accesses before prime, accesses of the victim
      while the profiler yields, and the outcome of writing the matrix. */
  datatype Round = Round(between: seq<Line>, victim: seq<Line>, fault: H5Fault)

  /** The matrix of one iteration, written down from its victim alone: cell (s, w) is the time of a
      hit if w plus the number of distinct victim lines in set s is below the associativity, and
      the time of a miss otherwise. */
  ghost predicate NoiseMatrix(t: Target, victim: seq<Line>, loads: nat, latency: (nat, bool) -> nat, cells: seq<nat>)
    requires t.info.Valid()
  {
    && |cells| == t.info.Lines()
    && forall s: nat, w: nat :: s < t.info.setCount && w < t.info.ways ==>
         && Cell(t.info, s, w) < |cells|
         && cells[Cell(t.info, s, w)]
            == latency(loads + Cell(t.info, s, w), w + |LinesIn(victim, s, t.info.setCount)| < t.info.ways) % TWO_TO_32
  }

  lemma NoiseFromProbe(t: Target, c: Cache, victim: seq<Line>, loads: nat, latency: (nat, bool) -> nat, cells: seq<nat>)
    requires t.Placed() && ValidCache(c, t.info.setCount, t.info.ways) && t.Foreign(victim)
    requires ProbeMatrix(t, Run(Run(c, t.PrimeTrace(t.info.setCount), t.info.ways), victim, t.info.ways),
                         loads, latency, cells)
    ensures NoiseMatrix(t, victim, loads, latency, cells)
  {
    hide Run, Target.ProbeHits, Target.PrimeTrace, Target.Placed, ValidCache, Cell;
    forall s: nat, w: nat | s < t.info.setCount && w < t.info.ways
      ensures Cell(t.info, s, w) < |cells|
      ensures cells[Cell(t.info, s, w)]
           == latency(loads + Cell(t.info, s, w), w + |LinesIn(victim, s, t.info.setCount)| < t.info.ways) % TWO_TO_32
    {
      NoiseHit(t, c, victim, s, w);
    }
  }

  /** The environment keeps hits and misses apart: every hit is faster than the threshold, every
      miss is not, and no access takes 2^31 cycles. */
  ghost predicate Separates(latency: (nat, bool) -> nat, threshold: nat) {
    forall n: nat :: latency(n, true) < threshold <= latency(n, false) < TWO_TO_31
  }

  ghost function SlowWays(info: CacheInfo, cells: seq<nat>, threshold: nat, s: nat): set<nat> {
    set w: nat | w < info.ways && Cell(info, s, w) < |cells| && cells[Cell(info, s, w)] >= threshold
  }

  /** Reading a stored matrix: row s has exactly min(k, ways) slow cells, k being the number of
      distinct lines of set s the victim touched, and they stand in the highest columns. */
  lemma SlowCells(t: Target, victim: seq<Line>, loads: nat, latency: (nat, bool) -> nat, cells: seq<nat>,
                  threshold: nat, s: nat)
    requires t.info.Valid() && s < t.info.setCount
    requires NoiseMatrix(t, victim, loads, latency, cells) && Separates(latency, threshold)
    ensures
      var k := |LinesIn(victim, s, t.info.setCount)|;
      var seen := if k < t.info.ways then k else t.info.ways;
      var slow := SlowWays(t.info, Stored(cells), threshold, s);
      slow == Range(t.info.ways - seen, t.info.ways) && |slow| == seen
  {
    hide Cell;
    var k := |LinesIn(victim, s, t.info.setCount)|;
    forall w: nat | w < t.info.ways
      ensures Cell(t.info, s, w) < |cells|
      ensures Stored(cells)[Cell(t.info, s, w)] >= threshold <==> w + k >= t.info.ways
    {
      var c := Cell(t.info, s, w);
      var v := latency(loads + c, w + k < t.info.ways);
      assert latency(loads + c, true) < threshold <= latency(loads + c, false) < TWO_TO_31;
      assert cells[c] == v % TWO_TO_32;
      assert w + k < t.info.ways ==> v == latency(loads + c, true);
      assert w + k >= t.info.ways ==> v == latency(loads + c, false);
    }
  }

  /** Prime, yield, probe. */
  method MeasureRound(m: Machine, buffer: Word, result: array<nat>, round: Round)
    requires m.Valid() && Target(m.info, m.phys, buffer).Placed() && result.Length == m.info.Lines()
    requires Target(m.info, m.phys, buffer).Foreign(round.victim)
    modifies m, result
    ensures m.Valid() && m.loads == old(m.loads) + 2 * m.info.Lines()
    ensures NoiseMatrix(Target(m.info, m.phys, buffer), round.victim, old(m.loads) + m.info.Lines(), m.latency,
                        result[..])
    ensures Target(m.info, m.phys, buffer).FilledDown(m.cache)
  {
    hide Run, WellFormed, Target.PrimeTrace, Target.ProbeTrace, Target.Up, Target.Foreign, InPlace,
         ProbeMatrix, NoiseMatrix;
    ghost var t := Target(m.info, m.phys, buffer);
    m.Interfere(round.between);
    ghost var c := m.cache;
    m.Prime(buffer);
    m.Interfere(round.victim);
    m.Probe(buffer, result);
    NoiseFromProbe(t, c, round.victim, old(m.loads) + m.info.Lines(), m.latency, result[..]);
  }

  /** How many iterations run when the termination signal arrives after `available` rounds;
      0 iterations means no limit of its own. */
  function RoundCount(iterations: nat, available: nat): nat {
    if iterations == 0 || available < iterations then available else iterations
  }

  /** Loads issued before iteration j. */
  function LoadsBefore(first: nat, lines: nat, j: nat): nat {
    if j == 0 then first else LoadsBefore(first, lines, j - 1) + 2 * lines
  }

  function Datasets(info: CacheInfo, matrices: seq<seq<nat>>): (datasets: seq<Dataset>)
    ensures |datasets| == |matrices|
  {
    seq(|matrices|, j requires 0 <= j < |matrices| => Dataset(info.setCount, info.ways, Stored(matrices[j])))
  }

  ghost predicate LargeEnough(info: CacheInfo, matrices: seq<seq<nat>>) {
    forall j :: 0 <= j < |matrices| ==> info.setCount * info.ways <= |matrices[j]|
  }

  /** Everything printed for a sequence of matrices. */
  function PrintedRun(info: CacheInfo, matrices: seq<seq<nat>>): seq<string>
    requires info.ways >= 1 && LargeEnough(info, matrices)
  {
    if matrices == [] then []
    else
      PrintedRun(info, matrices[..|matrices| - 1])
      + Calls(Rows(matrices[|matrices| - 1], info.ways, info.setCount), 0)
  }

  /** Matrix j shows exactly the victim of iteration j, for every iteration so far. */
  ghost predicate RunShows(t: Target, rounds: seq<Round>, first: nat, latency: (nat, bool) -> nat,
                           matrices: seq<seq<nat>>)
    requires t.info.Valid()
  {
    && |matrices| <= |rounds|
    && forall j :: 0 <= j < |matrices| ==>
         NoiseMatrix(t, rounds[j].victim, LoadsBefore(first, t.info.Lines(), j) + t.info.Lines(), latency, matrices[j])
  }

  lemma NoMatrices(t: Target, rounds: seq<Round>, first: nat, latency: (nat, bool) -> nat)
    requires t.info.Valid()
    ensures RunShows(t, rounds, first, latency, [])
    ensures LargeEnough(t.info, []) && Datasets(t.info, []) == [] && PrintedRun(t.info, []) == []
  {
  }

  /** One more iteration. */
  lemma NextMatrix(t: Target, rounds: seq<Round>, first: nat, latency: (nat, bool) -> nat,
                   matrices: seq<seq<nat>>, cells: seq<nat>)
    requires t.info.Valid() && RunShows(t, rounds, first, latency, matrices) && |matrices| < |rounds|
    requires NoiseMatrix(t, rounds[|matrices|].victim,
                         LoadsBefore(first, t.info.Lines(), |matrices|) + t.info.Lines(), latency, cells)
    ensures RunShows(t, rounds, first, latency, matrices + [cells])
    ensures LargeEnough(t.info, matrices + [cells]) && LargeEnough(t.info, matrices)
    ensures Datasets(t.info, matrices + [cells])
         == Datasets(t.info, matrices) + [Dataset(t.info.setCount, t.info.ways, Stored(cells))]
    ensures PrintedRun(t.info, matrices + [cells])
         == PrintedRun(t.info, matrices) + Calls(Rows(cells, t.info.ways, t.info.setCount), 0)
  {
    hide NoiseMatrix, Calls, Rows, Stored;
    assert (matrices + [cells])[..|matrices|] == matrices;
    forall ms | ms == matrices || ms == matrices + [cells] ensures LargeEnough(t.info, ms) {
      forall j | 0 <= j < |ms| ensures |ms[j]| == t.info.Lines() {
        MatrixSize(t, rounds[j].victim, LoadsBefore(first, t.info.Lines(), j) + t.info.Lines(), latency, ms[j]);
      }
      ValidSizes(t.info);
    }
  }

  lemma MatrixSize(t: Target, victim: seq<Line>, loads: nat, latency: (nat, bool) -> nat, cells: seq<nat>)
    requires t.info.Valid() && NoiseMatrix(t, victim, loads, latency, cells)
    ensures |cells| == t.info.Lines()
  {
  }

  ghost predicate NoFaults(rounds: seq<Round>) {
    forall j :: 0 <= j < |rounds| ==> rounds[j].fault == NoFault
  }

  method ProfileCache(m: Machine, buffer: Word, iterations: nat, out: Writer, rounds: seq<Round>,
                      enableOk: bool, disableOk: bool)
    returns (err: Error, ghost matrices: seq<seq<nat>>)
    requires m.Valid() && Target(m.info, m.phys, buffer).Placed() && iterations < TWO_TO_31
    requires forall j :: 0 <= j < |rounds| ==> Target(m.info, m.phys, buffer).Foreign(rounds[j].victim)
    modifies m, out, out.std
    ensures m.Valid()
    ensures RunShows(Target(m.info, m.phys, buffer), rounds, old(m.loads), m.latency, matrices)
    ensures |matrices| <= RoundCount(iterations, |rounds|)
    ensures |matrices| <= |rounds| && (iterations >= 1 ==> |matrices| <= iterations)
    ensures err == ErrNone || (err == ErrCounter && enableOk) ==>
      if iterations == 0 then |matrices| == |rounds| else |matrices| == iterations || |matrices| == |rounds|
    ensures err == ErrNone ==> enableOk && disableOk && |matrices| == RoundCount(iterations, |rounds|)
    ensures err == ErrCounter && enableOk ==> !disableOk && |matrices| == RoundCount(iterations, |rounds|)
    ensures !enableOk ==> err == ErrCounter && matrices == []
    ensures out.written == old(out.written) + if out.kind == 2 then Datasets(m.info, matrices) else []
    ensures old(out.Consistent()) && (err == ErrNone || err == ErrCounter) ==> out.Consistent()
    ensures
      (old(out.Consistent()) && old(|out.written|) + RoundCount(iterations, |rounds|) <= TWO_TO_64
       && enableOk && disableOk && NoFaults(rounds))
      ==> err == ErrNone
    ensures out.kind == 1 && err == ErrNone ==>
      LargeEnough(m.info, matrices) && out.std.calls == old(out.std.calls) + PrintedRun(m.info, matrices)
    ensures out.kind != 1 && out.kind != 2 ==> matrices == []
  {
    hide Run, WellFormed, Target.Foreign, Target.FilledDown, InPlace, NoiseMatrix, Stored, FileOf, Calls, Rows, Row,
         PrintedRun, Datasets, RunShows, LargeEnough, Writer.Consistent, Machine.Valid;
    ghost var t := Target(m.info, m.phys, buffer);
    ghost var loads0 := m.loads;
    matrices := [];
    LineCount(m.info);
    ValidSizes(m.info);
    ValidBounds(m.info);
    NoMatrices(t, rounds, loads0, m.latency);
    var result := new nat[m.info.totalSize / m.info.lineSize];
    if !enableOk { return ErrCounter, matrices; }
    var done, j := 0, 0;
    while (j < iterations || iterations == 0) && done < |rounds|
      invariant done == |matrices| <= |rounds| && j == (if iterations == 0 then 0 else done) <= iterations
      invariant m.Valid() && m.loads == LoadsBefore(loads0, m.info.Lines(), done)
      invariant RunShows(t, rounds, loads0, m.latency, matrices)
      invariant old(out.Consistent()) ==> out.Consistent()
      invariant out.written == old(out.written) + if out.kind == 2 then Datasets(m.info, matrices) else []
      invariant out.kind == 1 ==>
        LargeEnough(m.info, matrices) && out.std.calls == old(out.std.calls) + PrintedRun(m.info, matrices)
      invariant out.kind != 1 && out.kind != 2 ==> done == 0
      decreases |rounds| - done
    {
      MeasureRound(m, buffer, result, rounds[done]);
      NextMatrix(t, rounds, loads0, m.latency, matrices, result[..]);
      err := out.WriteMatrix(result[..], m.info.ways, m.info.setCount, rounds[done].fault);
      if err != ErrNone { return; }
      matrices := matrices + [result[..]];
      done := done + 1;
      j := j + if iterations == 0 then 0 else 1;
    }
    err := if disableOk then ErrNone else ErrCounter;
  }

  // ---------- reading the text of a run ----------

  /** Row s, column w of a printed matrix is the cell probe filled for way w of set s. */
  lemma PrintedCell(info: CacheInfo, cells: seq<nat>, s: nat, w: nat)
    requires info.Valid() && |cells| == info.Lines() && s < info.setCount && w < info.ways
    ensures info.setCount * info.ways <= |cells| && Cell(info, s, w) < |cells|
    ensures Rows(cells, info.ways, info.setCount)[s][w] == cells[Cell(info, s, w)]
  {
    ValidSizes(info);
    CellInRange(info, s, w);
    RowsAt(cells, info.ways, info.setCount, s);
  }

  /** So the printed value is the elapsed count of the load of buffer line way * sets + set, whenever
      that count fits into 32 bits, even when the counter wrapped in between. */
  lemma PrintedTiming(t: Target, c: Cache, loads: nat, latency: (nat, bool) -> nat, cells: seq<nat>, s: nat, w: nat)
    requires t.info.Valid() && |c| >= 1 && s < t.info.setCount && w < t.info.ways
    requires ProbeMatrix(t, c, loads, latency, cells)
    requires latency(loads + Cell(t.info, s, w), t.ProbeHits(c, s, w)) < TWO_TO_32
    ensures t.info.setCount * t.info.ways <= |cells|
    ensures Rows(cells, t.info.ways, t.info.setCount)[s][w]
         == latency(loads + Cell(t.info, s, w), t.ProbeHits(c, s, w))
  {
    hide Target.ProbeHits, Cell, Rows;
    PrintedCell(t.info, cells, s, w);
    SmallMod(latency(loads + Cell(t.info, s, w), t.ProbeHits(c, s, w)));
  }

  lemma SmallMod(x: nat)
    requires x < TWO_TO_32
    ensures x % TWO_TO_32 == x
  {
  }

  /** All rows of all matrices, each matrix numbered from 0. */
  function IndexedRun(info: CacheInfo, matrices: seq<seq<nat>>): seq<(nat, seq<nat>)>
    requires LargeEnough(info, matrices)
  {
    if matrices == [] then []
    else
      IndexedRun(info, matrices[..|matrices| - 1])
      + Indexed(Rows(matrices[|matrices| - 1], info.ways, info.setCount), 0)
  }

  lemma NothingRun(info: CacheInfo, rest: string)
    requires info.ways >= 1
    ensures LargeEnough(info, [])
    ensures Join(PrintedRun(info, [])) + rest == rest && IndexedRun(info, []) == []
  {
  }

  /** The text printed by a whole run parses to exactly the matrices of the run. */
  lemma {:induction false} RunThenRest(info: CacheInfo, matrices: seq<seq<nat>>, rest: string, parsed: seq<(nat,
                                       seq<nat>)>)
    requires info.ways >= 1 && LargeEnough(info, matrices) && ParseMatrix(rest) == Some(parsed)
    ensures ParseMatrix(Join(PrintedRun(info, matrices)) + rest) == Some(IndexedRun(info, matrices) + parsed)
  {
    hide ParseMatrix, Join, Calls, Indexed, Rows;
    if matrices == [] {
      NothingRun(info, rest);
      assert [] + parsed == parsed;
    } else {
      var before, last := matrices[..|matrices| - 1], matrices[|matrices| - 1];
      var rows := Rows(last, info.ways, info.setCount);
      TextThenRest(rows, 0, rest, parsed);
      RunThenRest(info, before, Join(Calls(rows, 0)) + rest, Indexed(rows, 0) + parsed);
      JoinConcat(PrintedRun(info, before), Calls(rows, 0));
      Assoc(Join(PrintedRun(info, before)), Join(Calls(rows, 0)), rest);
      AssocSeq(IndexedRun(info, before), Indexed(rows, 0), parsed);
    }
  }

  lemma RunRoundTrip(info: CacheInfo, matrices: seq<seq<nat>>)
    requires info.ways >= 1 && LargeEnough(info, matrices)
    ensures ParseMatrix(Join(PrintedRun(info, matrices))) == Some(IndexedRun(info, matrices))
  {
    var text, indexed := Join(PrintedRun(info, matrices)), IndexedRun(info, matrices);
    assert ParseMatrix("") == Some([]);
    hide ParseMatrix, Join, PrintedRun, IndexedRun;
    RunThenRest(info, matrices, "", []);
    assert text + "" == text;
    assert indexed + [] == indexed;
  }
}
