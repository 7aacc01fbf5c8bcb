/** What the two access orders of the profiler do to an LRU cache: prime walks the ways of each
    set downwards, probe walks them upwards. */
module PrimeProbe {
  import opened Words
  import opened Geometry
  import opened Lru

  /** A buffer, the cache it is meant for, and the translation its accesses go through. */
  datatype Target = Target(info: CacheInfo, phys: Translation, buffer: nat) {
    ghost predicate Valid() {
      info.Valid() && buffer + info.totalSize <= TWO_TO_64
    }

    ghost predicate Placed() {
      Valid() && info.totalSize >= 1 && InPlace(phys, buffer, info)
    }

    function Offset(s: nat, w: nat): nat {
      LineIndex(info, s, w) * info.lineSize
    }

    /** The physical line behind line i of the buffer. */
    function LineOf(i: nat): Line
      requires info.lineSize >= 1
    {
      phys(buffer + i * info.lineSize) / info.lineSize
    }

    /** The physical line behind way w of set s of the buffer. */
    function LineAt(s: nat, w: nat): Line
      requires info.lineSize >= 1
    {
      LineOf(LineIndex(info, s, w))
    }

    function Up(s: nat): seq<Line>
      requires info.lineSize >= 1
    {
      seq(info.ways, w requires 0 <= w => LineAt(s, w))
    }

    /** Physical lines touched by prime for the first n sets. */
    function PrimeTrace(n: nat): seq<Line>
      requires info.lineSize >= 1
    {
      if n == 0 then [] else PrimeTrace(n - 1) + Reversed(Up(n - 1))
    }

    /** Physical lines touched by probe for the first n sets. */
    function ProbeTrace(n: nat): seq<Line>
      requires info.lineSize >= 1
    {
      if n == 0 then [] else ProbeTrace(n - 1) + Up(n - 1)
    }

    /** Accesses of other code: no line of the buffer is among them. */
    ghost predicate Foreign(v: seq<Line>)
      requires info.lineSize >= 1
    {
      forall s, w :: 0 <= s < info.setCount && 0 <= w < info.ways ==> LineAt(s, w) !in v
    }

    /** Does the access of probe to way w of set s hit, when probe starts in cache c? */
    predicate ProbeHits(c: Cache, s: nat, w: nat)
      requires info.lineSize >= 1 && info.ways >= 1 && |c| >= 1 && w < info.ways
    {
      Hit(Run(c, ProbeTrace(s) + Up(s)[..w], info.ways), LineAt(s, w))
    }

    /** Each set holds exactly the buffer, way 0 most recent. */
    ghost predicate FilledUp(c: Cache)
      requires info.lineSize >= 1
    {
      |c| == info.setCount && forall s :: 0 <= s < info.setCount ==> c[s] == Up(s)
    }

    /** Each set holds exactly the buffer, way 0 least recent. */
    ghost predicate FilledDown(c: Cache)
      requires info.lineSize >= 1
    {
      |c| == info.setCount && forall s :: 0 <= s < info.setCount ==> c[s] == Reversed(Up(s))
    }

    ghost function MissedWays(c: Cache, s: nat): set<nat>
      requires info.lineSize >= 1 && info.ways >= 1 && |c| >= 1
    {
      set w: nat | w < info.ways && !ProbeHits(c, s, w)
    }
  }

  /** The distinct lines of a trace that belong to cache set s. */
  function LinesIn(v: seq<Line>, s: nat, sets: nat): set<Line>
    requires sets >= 1
  {
    set x | x in v && x % sets == s
  }

  // ---------- placement ----------

  /** When every line of the buffer is in place, way w of set s reaches a line of cache set s. */
  lemma Placement(t: Target, s: nat, w: nat)
    requires t.Placed() && s < t.info.setCount && w < t.info.ways
    ensures t.LineAt(s, w) % t.info.setCount == s
    ensures t.LineAt(s, w) % t.info.Lines() == LineIndex(t.info, s, w)
  {
    var i := LineIndex(t.info, s, w);
    ValidSizes(t.info);
    IndexOfPlace(t.info, s, w);
    assert LineId(t.phys, t.buffer, t.info, i) == i;
    LineOfRemainder(t.phys(t.buffer + t.Offset(s, w)), t.info.lineSize, t.info.Lines());
    ModOfMultiple(t.LineAt(s, w), t.info.setCount, t.info.ways);
    assert t.info.ways * t.info.setCount == t.info.Lines();
  }

  /** Different places of the buffer are different physical lines. */
  lemma PlacementInjective(t: Target, s: nat, w: nat, s': nat, w': nat)
    requires t.Placed()
    requires s < t.info.setCount && w < t.info.ways && s' < t.info.setCount && w' < t.info.ways
    requires t.LineAt(s, w) == t.LineAt(s', w')
    ensures s == s' && w == w'
  {
    Placement(t, s, w);
    Placement(t, s', w');
    IndexOfPlace(t.info, s, w);
    IndexOfPlace(t.info, s', w');
  }

  lemma UpPlaced(t: Target, s: nat)
    requires t.Placed() && s < t.info.setCount
    ensures NoDup(t.Up(s)) && |t.Up(s)| == t.info.ways
    ensures forall i :: 0 <= i < t.info.ways ==> t.Up(s)[i] % t.info.setCount == s
  {
    forall i | 0 <= i < t.info.ways ensures t.Up(s)[i] % t.info.setCount == s {
      Placement(t, s, i);
    }
    forall i, j | 0 <= i < j < t.info.ways ensures t.Up(s)[i] != t.Up(s)[j] {
      if t.LineAt(s, i) == t.LineAt(s, j) {
        PlacementInjective(t, s, i, s, j);
      }
    }
  }

  // ---------- traces seen by one set ----------

  lemma {:induction false} PrimeProjects(t: Target, n: nat, s: nat)
    requires t.Placed() && n <= t.info.setCount && s < t.info.setCount
    ensures Project(t.PrimeTrace(n), s, t.info.setCount) == if s < n then Reversed(t.Up(s)) else []
  {
    assert t.info.Valid();
    hide Project, Reversed, Target.Placed, Target.Up;
    ProjectNothing(s, t.info.setCount);
    if n > 0 {
      PrimeProjects(t, n - 1, s);
      UpAtHome(t, n - 1);
      AppendProject(t.PrimeTrace(n - 1), Reversed(t.Up(n - 1)), n - 1, s, t.info.setCount);
    }
  }

  lemma {:induction false} ProbeProjects(t: Target, n: nat, s: nat)
    requires t.Placed() && n <= t.info.setCount && s < t.info.setCount
    ensures Project(t.ProbeTrace(n), s, t.info.setCount) == if s < n then t.Up(s) else []
  {
    assert t.info.Valid();
    hide Project, Reversed, Target.Placed, Target.Up;
    ProjectNothing(s, t.info.setCount);
    if n > 0 {
      ProbeProjects(t, n - 1, s);
      UpAtHome(t, n - 1);
      AppendProject(t.ProbeTrace(n - 1), t.Up(n - 1), n - 1, s, t.info.setCount);
    }
  }

  lemma ProjectNothing(s: nat, sets: nat)
    requires sets >= 1
    ensures Project([], s, sets) == []
  {
  }

  /** Every line of the trace belongs to cache set `home`. */
  ghost predicate AtHome(v: seq<Line>, home: nat, sets: nat)
    requires sets >= 1
  {
    forall i :: 0 <= i < |v| ==> v[i] % sets == home
  }

  lemma UpAtHome(t: Target, s: nat)
    requires t.Placed() && s < t.info.setCount
    ensures AtHome(t.Up(s), s, t.info.setCount) && AtHome(Reversed(t.Up(s)), s, t.info.setCount)
  {
    UpPlaced(t, s);
  }

  lemma AppendProject(a: seq<Line>, b: seq<Line>, home: nat, s: nat, sets: nat)
    requires sets >= 1 && AtHome(b, home, sets)
    ensures Project(a + b, s, sets) == if s == home then Project(a, s, sets) + b else Project(a, s, sets)
  {
    hide Project;
    ProjectConcat(a, b, s, sets);
    ProjectUniform(b, home, s, sets);
  }

  /** Whatever was cached before, prime fills each set with the buffer, way 0 most recent. */
  lemma PrimeFills(t: Target, c: Cache, s: nat)
    requires t.Placed() && ValidCache(c, t.info.setCount, t.info.ways) && s < t.info.setCount
    ensures Run(c, t.PrimeTrace(t.info.setCount), t.info.ways)[s] == t.Up(s)
  {
    RunProjects(c, t.PrimeTrace(t.info.setCount), s, t.info.ways);
    PrimeProjects(t, t.info.setCount, s);
    UpPlaced(t, s);
    var down := Reversed(t.Up(s));
    assert NoDup(down);
    FullRefill(c[s], down, t.info.ways);
    assert Reversed(down) == t.Up(s);
  }

  /** Whatever was cached before, probe fills each set with the buffer, way 0 least recent. */
  lemma ProbeFills(t: Target, c: Cache, s: nat)
    requires t.Placed() && ValidCache(c, t.info.setCount, t.info.ways) && s < t.info.setCount
    ensures Run(c, t.ProbeTrace(t.info.setCount), t.info.ways)[s] == Reversed(t.Up(s))
  {
    RunProjects(c, t.ProbeTrace(t.info.setCount), s, t.info.ways);
    ProbeProjects(t, t.info.setCount, s);
    UpPlaced(t, s);
    FullRefill(c[s], t.Up(s), t.info.ways);
  }

  lemma Filled(t: Target, c: Cache)
    requires t.Valid() && ValidCache(c, t.info.setCount, t.info.ways)
    ensures t.Placed() ==> t.FilledUp(Run(c, t.PrimeTrace(t.info.setCount), t.info.ways))
    ensures t.Placed() ==> t.FilledDown(Run(c, t.ProbeTrace(t.info.setCount), t.info.ways))
  {
    if t.Placed() {
      forall s | 0 <= s < t.info.setCount
        ensures Run(c, t.PrimeTrace(t.info.setCount), t.info.ways)[s] == t.Up(s)
        ensures Run(c, t.ProbeTrace(t.info.setCount), t.info.ways)[s] == Reversed(t.Up(s))
      {
        PrimeFills(t, c, s);
        ProbeFills(t, c, s);
      }
    }
  }

  /** The set s just before probe accesses its way w: first pass, victim, part of probe. */
  lemma SetBeforeAccess(t: Target, c: Cache, pass: seq<Line>, own: seq<Line>, v: seq<Line>, s: nat, w: nat)
    requires t.Placed() && |c| == t.info.setCount && s < t.info.setCount && w < t.info.ways
    requires Project(pass, s, t.info.setCount) == own
    ensures Run(Run(Run(c, pass, t.info.ways), v, t.info.ways), t.ProbeTrace(s) + t.Up(s)[..w], t.info.ways)[s]
         == RunSet(c[s], own + Project(v, s, t.info.setCount) + t.Up(s)[..w], t.info.ways)
  {
    var part, sets, ways := t.ProbeTrace(s) + t.Up(s)[..w], t.info.setCount, t.info.ways;
    ProbeProjects(t, s, s);
    UpPlaced(t, s);
    ProjectConcat(t.ProbeTrace(s), t.Up(s)[..w], s, sets);
    ProjectUniform(t.Up(s)[..w], s, s, sets);
    assert Project(part, s, sets) == t.Up(s)[..w];
    RunProjects(c, pass, s, ways);
    RunProjects(Run(c, pass, ways), v, s, ways);
    RunProjects(Run(Run(c, pass, ways), v, ways), part, s, ways);
    RunSetConcat(c[s], own, Project(v, s, sets), ways);
    RunSetConcat(c[s], own + Project(v, s, sets), t.Up(s)[..w], ways);
  }

  lemma ForeignToSet(t: Target, v: seq<Line>, s: nat)
    requires t.Placed() && t.Foreign(v) && s < t.info.setCount
    ensures Elems(Project(v, s, t.info.setCount)) == LinesIn(v, s, t.info.setCount)
    ensures Elems(t.Up(s)) !! LinesIn(v, s, t.info.setCount)
  {
    ProjectElems(v, s, t.info.setCount);
    forall x | x in t.Up(s) ensures x !in v {
      var w :| 0 <= w < t.info.ways && t.LineAt(s, w) == x;
    }
  }

  // ---------- exact noise counting ----------

  /** Prime, an arbitrary victim, then probe: the access to way w of set s hits exactly when
      w plus the number of distinct victim lines in s is below the associativity. */
  lemma NoiseHit(t: Target, c: Cache, v: seq<Line>, s: nat, w: nat)
    requires t.Placed() && ValidCache(c, t.info.setCount, t.info.ways) && t.Foreign(v)
    requires s < t.info.setCount && w < t.info.ways
    ensures t.ProbeHits(Run(Run(c, t.PrimeTrace(t.info.setCount), t.info.ways), v, t.info.ways), s, w)
       <==> w + |LinesIn(v, s, t.info.setCount)| < t.info.ways
  {
    var p := Project(v, s, t.info.setCount);
    PrimeProjects(t, t.info.setCount, s);
    UpPlaced(t, s);
    ForeignToSet(t, v, s);
    SetBeforeAccess(t, c, t.PrimeTrace(t.info.setCount), Reversed(t.Up(s)), v, s, w);
    OppositeHit(c[s], t.Up(s), p, w, t.info.ways);
    Placement(t, s, w);
  }

  /** A victim that touches k distinct lines of set s costs exactly min(k, ways) probe misses in
      s, and they are the highest-numbered ways. */
  lemma ExactNoise(t: Target, c: Cache, v: seq<Line>, s: nat)
    requires t.Placed() && ValidCache(c, t.info.setCount, t.info.ways) && t.Foreign(v)
    requires s < t.info.setCount
    ensures
      var k := |LinesIn(v, s, t.info.setCount)|;
      var seen := if k < t.info.ways then k else t.info.ways;
      var missed := t.MissedWays(Run(Run(c, t.PrimeTrace(t.info.setCount), t.info.ways), v, t.info.ways), s);
      missed == Range(t.info.ways - seen, t.info.ways) && |missed| == seen
  {
    var k := |LinesIn(v, s, t.info.setCount)|;
    var seen := if k < t.info.ways then k else t.info.ways;
    forall w: nat | w < t.info.ways
      ensures t.ProbeHits(Run(Run(c, t.PrimeTrace(t.info.setCount), t.info.ways), v, t.info.ways), s, w)
         <==> w < t.info.ways - seen
    {
      NoiseHit(t, c, v, s, w);
    }
    var _ := Range(t.info.ways - seen, t.info.ways);
  }

  /** Loading in the probe order already in the first pass would spoil the measurement: then one
      victim line in a set makes every way of it miss, and only an undisturbed set hits. */
  lemma SameDirectionThrashes(t: Target, c: Cache, v: seq<Line>, s: nat, w: nat)
    requires t.Placed() && ValidCache(c, t.info.setCount, t.info.ways) && t.Foreign(v)
    requires s < t.info.setCount && w < t.info.ways
    ensures t.ProbeHits(Run(Run(c, t.ProbeTrace(t.info.setCount), t.info.ways), v, t.info.ways), s, w)
       <==> LinesIn(v, s, t.info.setCount) == {}
  {
    var p := Project(v, s, t.info.setCount);
    ProbeProjects(t, t.info.setCount, s);
    UpPlaced(t, s);
    ForeignToSet(t, v, s);
    SetBeforeAccess(t, c, t.ProbeTrace(t.info.setCount), t.Up(s), v, s, w);
    SameDirectionHit(c[s], t.Up(s), p, w, t.info.ways);
    Placement(t, s, w);
    assert p != [] ==> p[0] in Elems(p);
  }

  // ---------- the order of accesses ----------

  /** Position set*ways + way of a set-major sequence. */
  function Cell(info: CacheInfo, s: nat, w: nat): nat {
    s * info.ways + w
  }

  /** The set loaded at position k. */
  function RowOf(info: CacheInfo, k: nat): nat
    requires info.ways >= 1
  {
    k / info.ways
  }

  /** The step inside its set of position k. */
  function StepOf(info: CacheInfo, k: nat): (w: nat)
    requires info.ways >= 1
    ensures w < info.ways
  {
    k % info.ways
  }

  lemma CellInRange(info: CacheInfo, s: nat, w: nat)
    requires info.Valid() && s < info.setCount && w < info.ways
    ensures Cell(info, s, w) < info.Lines()
  {
    ValidSizes(info);
    MulMono(s + 1, info.setCount, info.ways);
  }

  lemma {:induction false} TraceShape(t: Target, n: nat, s: nat, w: nat)
    requires t.info.Valid() && w < t.info.ways && s < n
    ensures |t.ProbeTrace(n)| == |t.PrimeTrace(n)| == n * t.info.ways
    ensures Cell(t.info, s, w) < n * t.info.ways
    ensures t.ProbeTrace(n)[Cell(t.info, s, w)] == t.LineAt(s, w)
    ensures t.PrimeTrace(n)[Cell(t.info, s, w)] == t.LineAt(s, t.info.ways - 1 - w)
  {
    TraceLength(t, n);
    TraceLength(t, n - 1);
    MulMono(s + 1, n, t.info.ways);
    if s < n - 1 {
      TraceShape(t, n - 1, s, w);
    }
  }

  lemma {:induction false} TraceLength(t: Target, n: nat)
    requires t.info.Valid()
    ensures |t.ProbeTrace(n)| == |t.PrimeTrace(n)| == n * t.info.ways
  {
    if n > 0 {
      TraceLength(t, n - 1);
      assert n * t.info.ways == (n - 1) * t.info.ways + t.info.ways;
    }
  }

  lemma TraceRoom(t: Target, s: nat)
    requires t.info.Valid() && s < t.info.setCount
    ensures |t.ProbeTrace(s)| + t.info.ways <= t.info.Lines()
    ensures |t.ProbeTrace(t.info.setCount)| == |t.PrimeTrace(t.info.setCount)| == t.info.Lines()
  {
    TraceLength(t, s);
    TraceLength(t, t.info.setCount);
    ValidSizes(t.info);
    MulMono(s + 1, t.info.setCount, t.info.ways);
  }

  /** Probe reaches cell (s, w) after exactly the earlier sets and the lower ways of s. */
  lemma {:induction false} TracePrefix(t: Target, n: nat, s: nat, w: nat)
    requires t.info.Valid() && w < t.info.ways && s < n
    ensures Cell(t.info, s, w) < |t.ProbeTrace(n)|
    ensures t.ProbeTrace(n)[..Cell(t.info, s, w)] == t.ProbeTrace(s) + t.Up(s)[..w]
  {
    TraceLength(t, n - 1);
    TraceShape(t, n, s, w);
    hide Cell, Target.Up, CacheInfo.Valid;
    if s < n - 1 {
      TracePrefix(t, n - 1, s, w);
      PrefixOfFirst(t.ProbeTrace(n - 1), t.Up(n - 1), Cell(t.info, s, w));
    } else {
      CellAfter(t, s, w);
      PrefixOfBoth(t.ProbeTrace(s), t.Up(s), w);
    }
  }

  lemma CellAfter(t: Target, s: nat, w: nat)
    requires t.info.Valid()
    ensures Cell(t.info, s, w) == |t.ProbeTrace(s)| + w && |t.Up(s)| == t.info.ways
  {
    TraceLength(t, s);
  }

  lemma PrefixOfFirst(a: seq<Line>, b: seq<Line>, k: nat)
    requires k <= |a|
    ensures (a + b)[..k] == a[..k]
  {
  }

  lemma PrefixOfBoth(a: seq<Line>, b: seq<Line>, w: nat)
    requires w <= |b|
    ensures (a + b)[..|a| + w] == a + b[..w]
  {
  }

  /** Every position of a trace is the cell of one set and one step inside it. */
  lemma CellOfPosition(info: CacheInfo, k: nat)
    requires info.Valid() && k < info.Lines()
    ensures RowOf(info, k) < info.setCount && Cell(info, RowOf(info, k), StepOf(info, k)) == k
  {
    ValidSizes(info);
    hide CacheInfo.Valid, CacheInfo.Lines;
    DivModBounds(k, info.ways);
    if k / info.ways >= info.setCount {
      MulMono(info.setCount, k / info.ways, info.ways);
    }
  }

  /** Different places have different line indices, and different cells. */
  lemma PlacesDiffer(info: CacheInfo, s: nat, w: nat, s': nat, w': nat)
    requires info.Valid() && s < info.setCount && w < info.ways && s' < info.setCount && w' < info.ways
    ensures LineIndex(info, s, w) == LineIndex(info, s', w') <==> s == s' && w == w'
    ensures Cell(info, s, w) == Cell(info, s', w') <==> s == s' && w == w'
  {
    IndexOfPlace(info, s, w);
    IndexOfPlace(info, s', w');
    hide LineIndex, CacheInfo.Valid, CacheInfo.Lines;
    DivModUnique(s, w, info.ways);
    DivModUnique(s', w', info.ways);
  }

  /** The line index that prime loads at position k: set k / ways, its ways descending. */
  function PrimeIndex(info: CacheInfo, k: nat): nat
    requires info.ways >= 1
  {
    LineIndex(info, RowOf(info, k), info.ways - 1 - StepOf(info, k))
  }

  /** The line index that probe loads at position k: set k / ways, its ways ascending. */
  function ProbeIndex(info: CacheInfo, k: nat): nat
    requires info.ways >= 1
  {
    LineIndex(info, RowOf(info, k), StepOf(info, k))
  }

  /** Where prime loads line i: the cell of its set, its way counted from the top. */
  function PrimePosition(info: CacheInfo, i: nat): nat
    requires info.Valid() && i < info.Lines()
  {
    PlaceOfIndex(info, i);
    Cell(info, SetOf(info, i), info.ways - 1 - WayOf(info, i))
  }

  /** Where probe loads line i: the cell of its set and its way. */
  function ProbePosition(info: CacheInfo, i: nat): nat
    requires info.Valid() && i < info.Lines()
  {
    Cell(info, SetOf(info, i), WayOf(info, i))
  }

  lemma ProbeOnce(info: CacheInfo, i: nat, k: nat)
    requires info.Valid() && i < info.Lines() && k < info.Lines()
    ensures ProbeIndex(info, k) == i <==> k == ProbePosition(info, i)
  {
    assert info.setCount >= 1 && info.ways >= 1;
    CellOfPosition(info, k);
    PlaceOfIndex(info, i);
    hide LineIndex, Cell, SetOf, WayOf, RowOf, StepOf, CacheInfo.Valid, CacheInfo.Lines;
    PlacesDiffer(info, RowOf(info, k), StepOf(info, k), SetOf(info, i), WayOf(info, i));
  }

  lemma PrimeOnce(info: CacheInfo, i: nat, k: nat)
    requires info.Valid() && i < info.Lines() && k < info.Lines()
    ensures PrimeIndex(info, k) == i <==> k == PrimePosition(info, i)
  {
    assert info.setCount >= 1 && info.ways >= 1;
    CellOfPosition(info, k);
    PlaceOfIndex(info, i);
    hide LineIndex, Cell, SetOf, WayOf, RowOf, StepOf, CacheInfo.Valid, CacheInfo.Lines;
    MirroredPlaces(info, RowOf(info, k), StepOf(info, k), SetOf(info, i), WayOf(info, i));
  }

  lemma MirroredPlaces(info: CacheInfo, s: nat, w: nat, s': nat, w': nat)
    requires info.Valid() && s < info.setCount && w < info.ways && s' < info.setCount && w' < info.ways
    ensures LineIndex(info, s, info.ways - 1 - w) == LineIndex(info, s', w')
       <==> Cell(info, s, w) == Cell(info, s', info.ways - 1 - w')
  {
    hide LineIndex, Cell, CacheInfo.Valid;
    PlacesDiffer(info, s, info.ways - 1 - w, s', w');
    PlacesDiffer(info, s, w, s', info.ways - 1 - w');
  }

  lemma TraceEntry(t: Target, k: nat)
    requires t.info.Valid() && k < t.info.Lines()
    ensures |t.PrimeTrace(t.info.setCount)| == |t.ProbeTrace(t.info.setCount)| == t.info.Lines()
    ensures t.PrimeTrace(t.info.setCount)[k] == t.LineOf(PrimeIndex(t.info, k))
    ensures t.ProbeTrace(t.info.setCount)[k] == t.LineOf(ProbeIndex(t.info, k))
  {
    TraceRoom(t, 0);
    CellOfPosition(t.info, k);
    hide Target.PrimeTrace, Target.ProbeTrace, CacheInfo.Valid, CacheInfo.Lines, Cell, LineIndex, RowOf, StepOf;
    TraceShape(t, t.info.setCount, RowOf(t.info, k), StepOf(t.info, k));
  }

  /** Wherever the buffer lies, prime and probe load every one of its lines exactly once, and at the
      position that its set and way give it. */
  lemma VisitedOnce(t: Target, i: nat, k: nat)
    requires t.info.Valid() && i < t.info.Lines() && k < t.info.Lines()
    ensures |t.PrimeTrace(t.info.setCount)| == |t.ProbeTrace(t.info.setCount)| == t.info.Lines()
    ensures t.PrimeTrace(t.info.setCount)[k] == t.LineOf(PrimeIndex(t.info, k))
    ensures t.ProbeTrace(t.info.setCount)[k] == t.LineOf(ProbeIndex(t.info, k))
    ensures PrimeIndex(t.info, k) == i <==> k == PrimePosition(t.info, i)
    ensures ProbeIndex(t.info, k) == i <==> k == ProbePosition(t.info, i)
  {
    hide PrimeIndex, ProbeIndex, PrimePosition, ProbePosition, Target.PrimeTrace, Target.ProbeTrace;
    TraceEntry(t, k);
    PrimeOnce(t.info, i, k);
    ProbeOnce(t.info, i, k);
  }

  /** On an aligned buffer the lines are different, so each physical line is loaded exactly once. */
  lemma PhysicalOnce(t: Target, i: nat, k: nat)
    requires t.Placed() && i < t.info.Lines() && k < t.info.Lines()
    ensures |t.PrimeTrace(t.info.setCount)| == |t.ProbeTrace(t.info.setCount)| == t.info.Lines()
    ensures t.PrimeTrace(t.info.setCount)[k] == t.LineOf(i) <==> k == PrimePosition(t.info, i)
    ensures t.ProbeTrace(t.info.setCount)[k] == t.LineOf(i) <==> k == ProbePosition(t.info, i)
  {
    assert t.info.Valid();
    hide PrimePosition, ProbePosition, Target.PrimeTrace, Target.ProbeTrace;
    VisitedOnce(t, i, k);
    IndicesInRange(t.info, k);
    LinesDiffer(t, PrimeIndex(t.info, k), i);
    LinesDiffer(t, ProbeIndex(t.info, k), i);
  }

  lemma IndicesInRange(info: CacheInfo, k: nat)
    requires info.Valid() && k < info.Lines()
    ensures PrimeIndex(info, k) < info.Lines() && ProbeIndex(info, k) < info.Lines()
  {
    CellOfPosition(info, k);
    hide LineIndex, Cell, SetOf, WayOf, RowOf, StepOf, CacheInfo.Valid, CacheInfo.Lines;
    IndexOfPlace(info, RowOf(info, k), StepOf(info, k));
    IndexOfPlace(info, RowOf(info, k), info.ways - 1 - StepOf(info, k));
  }

  lemma SomePlace(info: CacheInfo, i: nat) returns (s: nat, w: nat)
    requires info.Valid() && i < info.Lines()
    ensures s < info.setCount && w < info.ways && LineIndex(info, s, w) == i
  {
    PlaceOfIndex(info, i);
    hide SetOf, WayOf;
    s, w := SetOf(info, i), WayOf(info, i);
  }

  lemma LinesDiffer(t: Target, i: nat, i': nat)
    requires t.Placed() && i < t.info.Lines() && i' < t.info.Lines()
    ensures t.LineOf(i) == t.LineOf(i') <==> i == i'
  {
    assert t.info.Valid() && t.info.lineSize >= 1;
    hide LineIndex, CacheInfo.Valid, CacheInfo.Lines, Target.LineOf, Target.Placed;
    var s, w := SomePlace(t.info, i);
    var s', w' := SomePlace(t.info, i');
    if t.LineOf(i) == t.LineOf(i') {
      PlacementInjective(t, s, w, s', w');
    }
  }
}
