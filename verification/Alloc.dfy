/** The search for a cache-aligned hugepage buffer, and its release. */
module Alloc {
  import opened Words
  import opened Errors
  import opened Geometry
  import opened SysInfo
  import opened Alignment

  // ---------- mmap and munmap of hugepages ----------

  /** Where mmap would put a region: its first virtual hugepage and the frames behind it. */
  datatype Placement = Placement(base: nat, frames: seq<nat>)

  /** The kernel's answer to one try, and whether the pagemap can be read during it. */
  datatype Attempt = Attempt(placement: Placement, readable: bool)

  /** How the kernel answers, given the current mapping and the number of the try. */
  type Policy = (Mapping, nat) -> Attempt

  predicate Feasible(plat: Platform, m: Mapping, p: Placement, n: nat) {
    && |p.frames| == n
    && (p.base + n) * plat.hugeSize <= TWO_TO_64
    && (forall i :: 0 <= i < n ==> p.frames[i] in Free(plat, m))
    && (forall i, j :: 0 <= i < j < n ==> p.frames[i] != p.frames[j])
    && (forall v :: p.base <= v < p.base + n ==> v !in m)
  }

  function Region(p: Placement): set<nat> {
    Range(p.base, p.base + |p.frames|)
  }

  function MapRegion(m: Mapping, p: Placement): Mapping {
    m + map v | v in Region(p) :: p.frames[v - p.base]
  }

  function Unmap(m: Mapping, base: nat, n: nat): Mapping {
    map v | v in m && !(base <= v < base + n) :: m[v]
  }

  lemma MapRegionValid(plat: Platform, m: Mapping, p: Placement, n: nat)
    requires plat.hugeSize >= 1 && ValidMapping(plat, m) && Feasible(plat, m, p, n)
    ensures ValidMapping(plat, MapRegion(m, p))
  {
    forall v | v in MapRegion(m, p) && v !in m ensures (v + 1) * plat.hugeSize <= TWO_TO_64 {
      MulMono(v + 1, p.base + n, plat.hugeSize);
    }
  }

  // ---------- a request and the search loop ----------

  datatype Request = Request(plat: Platform, info: CacheInfo, policy: Policy, maxTries: nat) {
    ghost predicate Valid() {
      && Fits(plat, info)
      && plat.hugeSize >= 1 && plat.pageSize >= 1 && info.lineSize >= 1
      && plat.hugeSize / plat.pageSize >= 1 && plat.hugeSize / info.lineSize >= 1 && info.totalSize >= 1
      && Needed(plat, info) >= 1
    }

    function Size(): nat
      requires plat.hugeSize >= 1
    {
      Needed(plat, info)
    }
  }

  /** The extra conditions of Valid always hold. */
  lemma RequestValid(q: Request)
    requires Fits(q.plat, q.info)
    ensures q.Valid()
  {
    HugeRatio(q.plat);
    HugeLines(q.plat, q.info);
    ValidBounds(q.info);
    CeilDiv(q.info.totalSize, q.plat.hugeSize);
  }

  /** State after the search loop: the mapping, the rejected buffers, *buffer and err. */
  datatype Search = Search(mapped: Mapping, rejected: seq<Word>, buffer: Option<Word>, err: Error)

  function Test(q: Request, m: Mapping, readable: bool, buffer: Word): Error
    requires q.Valid()
  {
    TestFrom(PagemapOf(q.plat, m, readable), q.plat.pageSize, q.plat.hugeSize, buffer, q.info, 0)
  }

  /** The buffer mmap returns for a placement. */
  function Address(plat: Platform, info: CacheInfo, m: Mapping, p: Placement): (b: Word)
    requires Fits(plat, info) && Feasible(plat, m, p, Needed(plat, info))
    ensures b / plat.hugeSize == p.base && b % plat.hugeSize == 0
  {
    ValidBounds(info);
    CeilDiv(info.totalSize, plat.hugeSize);
    MulMono(p.base + 1, p.base + Needed(plat, info), plat.hugeSize);
    MulStep(p.base, plat.hugeSize);
    DivModUnique(p.base, 0, plat.hugeSize);
    p.base * plat.hugeSize
  }

  function SearchFrom(q: Request, m: Mapping, rejected: seq<Word>, last: Option<Word>): Search
    requires q.Valid() && |rejected| <= q.maxTries
    decreases q.maxTries - |rejected|
  {
    if |rejected| == q.maxTries then Search(m, rejected, last, ErrNotAligned)
    else
      var a := q.policy(m, |rejected|);
      if !Feasible(q.plat, m, a.placement, q.Size()) then Search(m, rejected, None, ErrMmap)
      else
        var m' := MapRegion(m, a.placement);
        var b := Address(q.plat, q.info, m, a.placement);
        var e := Test(q, m', a.readable, b);
        if e == ErrNotAligned then SearchFrom(q, m', rejected + [b], Some(b))
        else Search(m', rejected, Some(b), e)
  }

  /** The loop stopped on a buffer that it did not reject. */
  predicate Candidate(q: Request, s: Search) {
    |s.rejected| < q.maxTries && s.buffer.Some?
  }

  // ---------- what the search leaves mapped ----------

  ghost predicate Covered(q: Request, rejected: seq<Word>, v: nat)
    requires q.plat.hugeSize >= 1
  {
    exists b :: b in rejected && b / q.plat.hugeSize <= v < b / q.plat.hugeSize + q.Size()
  }

  ghost predicate InRegion(q: Request, region: Option<Word>, v: nat)
    requires q.plat.hugeSize >= 1
  {
    region.Some? && region.value / q.plat.hugeSize <= v < region.value / q.plat.hugeSize + q.Size()
  }

  /** m consists of m0, the rejected regions and possibly one more region, all disjoint. */
  ghost predicate Layout(q: Request, m0: Mapping, m: Mapping, rejected: seq<Word>, region: Option<Word>)
    requires q.plat.hugeSize >= 1
  {
    && ValidMapping(q.plat, m)
    && (forall v :: v in m0 ==> v in m && m[v] == m0[v] && !Covered(q, rejected, v) && !InRegion(q, region, v))
    && (forall v :: v in m ==> v in m0 || Covered(q, rejected, v) || InRegion(q, region, v))
    && (forall v :: Covered(q, rejected, v) ==> v in m && !InRegion(q, region, v))
    && (forall v :: InRegion(q, region, v) ==> v in m)
  }

  /** One more region. */
  lemma LayoutMap(q: Request, m0: Mapping, m: Mapping, rejected: seq<Word>, p: Placement)
    requires q.Valid() && Layout(q, m0, m, rejected, None) && Feasible(q.plat, m, p, q.Size())
    ensures Layout(q, m0, MapRegion(m, p), rejected, Some(Address(q.plat, q.info, m, p)))
  {
    hide Covered, InRegion, Address, ValidMapping, Feasible;
    MapRegionValid(q.plat, m, p, q.Size());
    forall v {
      MappedRegion(q, m, p, v);
    }
  }

  lemma MappedRegion(q: Request, m: Mapping, p: Placement, v: nat)
    requires q.Valid() && Feasible(q.plat, m, p, q.Size())
    ensures InRegion(q, Some(Address(q.plat, q.info, m, p)), v) <==> v in MapRegion(m, p) && v !in m
    ensures v in m ==> v in MapRegion(m, p) && MapRegion(m, p)[v] == m[v]
    ensures !InRegion(q, None, v)
  {
    assert v in Region(p) <==> p.base <= v < p.base + q.Size();
  }

  /** Setting a region aside as rejected. */
  lemma LayoutReject(q: Request, m0: Mapping, m: Mapping, rejected: seq<Word>, b: Word)
    requires q.Valid() && Layout(q, m0, m, rejected, Some(b))
    ensures Layout(q, m0, m, rejected + [b], None)
  {
    forall v ensures Covered(q, rejected + [b], v) <==> Covered(q, rejected, v) || InRegion(q, Some(b), v) {
      CoveredSnoc(q, rejected, b, v);
    }
  }

  lemma CoveredSnoc(q: Request, rejected: seq<Word>, b: Word, v: nat)
    requires q.plat.hugeSize >= 1
    ensures Covered(q, rejected + [b], v) <==> Covered(q, rejected, v) || InRegion(q, Some(b), v)
  {
    if Covered(q, rejected, v) {
      var c :| c in rejected && c / q.plat.hugeSize <= v < c / q.plat.hugeSize + q.Size();
      assert c in rejected + [b];
    }
    if InRegion(q, Some(b), v) {
      assert b in rejected + [b];
    }
  }

  lemma {:induction false} SearchLayout(q: Request, m0: Mapping, m: Mapping, rejected: seq<Word>, last: Option<Word>)
    requires q.Valid() && |rejected| <= q.maxTries && Layout(q, m0, m, rejected, None)
    requires last.None? || last.value in rejected
    ensures var s := SearchFrom(q, m, rejected, last);
      && |s.rejected| <= q.maxTries
      && Layout(q, m0, s.mapped, s.rejected, if Candidate(q, s) then s.buffer else None)
      && (Candidate(q, s) <==> s.err != ErrMmap && s.err != ErrNotAligned)
      && (!Candidate(q, s) && s.buffer.Some? ==> s.buffer.value in s.rejected)
    decreases q.maxTries - |rejected|
  {
    if |rejected| < q.maxTries {
      var a := q.policy(m, |rejected|);
      if Feasible(q.plat, m, a.placement, q.Size()) {
        hide Layout, Test, Feasible, MapRegion, Address;
        var m' := MapRegion(m, a.placement);
        var b := Address(q.plat, q.info, m, a.placement);
        LayoutMap(q, m0, m, rejected, a.placement);
        TestNotMmap(q, m', a.readable, b);
        if Test(q, m', a.readable, b) == ErrNotAligned {
          LayoutReject(q, m0, m', rejected, b);
          SearchLayout(q, m0, m', rejected + [b], Some(b));
        }
      }
    }
  }

  lemma {:induction false} TestFromNotMmap(pagemap: Pagemap, pageSize: Word, hugeSize: Word, buffer: Word,
                                           info: CacheInfo, line: nat)
    requires info.Valid() && hugeSize / info.lineSize >= 1
    ensures TestFrom(pagemap, pageSize, hugeSize, buffer, info, line) != ErrMmap
    decreases info.Lines() - line
  {
    if line < info.Lines() {
      LineInside(info, line);
      TestFromNotMmap(pagemap, pageSize, hugeSize, buffer, info, line + hugeSize / info.lineSize);
    }
  }

  lemma TestNotMmap(q: Request, m: Mapping, readable: bool, buffer: Word)
    requires q.Valid()
    ensures Test(q, m, readable, buffer) != ErrMmap
  {
    TestFromNotMmap(PagemapOf(q.plat, m, readable), q.plat.pageSize, q.plat.hugeSize, buffer, q.info, 0);
  }

  // ---------- releasing regions ----------

  function Release(q: Request, m: Mapping, buffer: Word): Mapping
    requires q.plat.hugeSize >= 1
  {
    Unmap(m, buffer / q.plat.hugeSize, q.Size())
  }

  /** m without the given regions. */
  function RemoveAll(q: Request, m: Mapping, buffers: seq<Word>): Mapping
    requires q.plat.hugeSize >= 1
  {
    if buffers == [] then m
    else Release(q, RemoveAll(q, m, buffers[..|buffers| - 1]), buffers[|buffers| - 1])
  }

  lemma {:induction false} RemoveAllKeys(q: Request, m: Mapping, buffers: seq<Word>)
    requires q.plat.hugeSize >= 1
    ensures forall v :: v in RemoveAll(q, m, buffers) <==> v in m && !Covered(q, buffers, v)
    ensures forall v :: v in RemoveAll(q, m, buffers) ==> RemoveAll(q, m, buffers)[v] == m[v]
  {
    if buffers != [] {
      var t, b := buffers[..|buffers| - 1], buffers[|buffers| - 1];
      RemoveAllKeys(q, m, t);
      assert buffers == t + [b];
      forall v ensures Covered(q, buffers, v) <==> Covered(q, t, v) || InRegion(q, Some(b), v) {
        CoveredSnoc(q, t, b, v);
      }
    }
  }

  /** m is m0, plus one more region when one is given. */
  ghost predicate Extends(q: Request, m0: Mapping, m: Mapping, region: Option<Word>)
    requires q.plat.hugeSize >= 1
  {
    && (forall v :: v in m0 ==> v in m && m[v] == m0[v] && !InRegion(q, region, v))
    && (forall v :: v in m <==> v in m0 || InRegion(q, region, v))
  }

  lemma CleanedUp(q: Request, m0: Mapping, m: Mapping, rejected: seq<Word>, region: Option<Word>)
    requires q.plat.hugeSize >= 1 && Layout(q, m0, m, rejected, region)
    ensures Extends(q, m0, RemoveAll(q, m, rejected), region)
  {
    RemoveAllKeys(q, m, rejected);
  }

  lemma ExtendsNothing(q: Request, m0: Mapping, m: Mapping)
    requires q.plat.hugeSize >= 1 && Extends(q, m0, m, None)
    ensures m == m0
  {
    assert forall v :: v in m <==> v in m0;
  }

  /** Unmapping the extra region, or a region that is not mapped any more, gives back m0. */
  lemma ReleaseRest(q: Request, m0: Mapping, m: Mapping, b: Word)
    requires q.plat.hugeSize >= 1
    requires Extends(q, m0, m, Some(b)) || (m == m0 && forall v :: InRegion(q, Some(b), v) ==> v !in m0)
    ensures Release(q, m, b) == m0
  {
    var u := Release(q, m, b);
    forall v ensures v in u <==> v in m && !InRegion(q, Some(b), v) {}
    assert forall v :: v in u <==> v in m0;
  }

  /** What alloc_aligned makes of the search: the clean-up loop overwrites err. */
  datatype Outcome = Outcome(mapped: Mapping, err: Error, buffer: Option<Word>)

  function AllocOutcome(q: Request, s: Search): Outcome
    requires q.plat.hugeSize >= 1
  {
    var cleaned := RemoveAll(q, s.mapped, s.rejected);
    var err := if s.rejected == [] then s.err else ErrNone;
    if (|s.rejected| < q.maxTries && err == ErrNone) || s.buffer.None? then Outcome(cleaned, err, s.buffer)
    else Outcome(Release(q, cleaned, s.buffer.value), err, s.buffer)
  }

  class Kernel {
    const plat: Platform
    var mapped: Mapping

    constructor (plat: Platform, mapped: Mapping)
      ensures this.plat == plat && this.mapped == mapped
    {
      this.plat, this.mapped := plat, mapped;
    }

    /** mmap of hugepage memory for the buffer of a cache; None is MAP_FAILED. */
    method Mmap(info: CacheInfo, p: Placement) returns (buffer: Option<Word>)
      requires Fits(plat, info)
      modifies this
      ensures if Feasible(plat, old(mapped), p, Needed(plat, info))
        then buffer == Some(Address(plat, info, old(mapped), p)) && mapped == MapRegion(old(mapped), p)
        else buffer == None && mapped == old(mapped)
    {
      buffer := None;
      if Feasible(plat, mapped, p, Needed(plat, info)) {
        buffer := Some(Address(plat, info, mapped, p));
        mapped := MapRegion(mapped, p);
      }
    }

    /** munmap of whole hugepages; unmapping what is not mapped is not an error. */
    method Munmap(buffer: Word, length: nat) returns (ok: bool)
      requires plat.hugeSize >= 1
      modifies this
      ensures ok <==> buffer % plat.hugeSize == 0 && length % plat.hugeSize == 0
      ensures mapped == if ok then Unmap(old(mapped), buffer / plat.hugeSize, length / plat.hugeSize) else old(mapped)
    {
      ok := buffer % plat.hugeSize == 0 && length % plat.hugeSize == 0;
      if ok {
        mapped := Unmap(mapped, buffer / plat.hugeSize, length / plat.hugeSize);
      }
    }
  }

  /** The length loop: the least positive multiple of the hugepage size that covers the buffer. */
  method CoveringLength(total: nat, hugeSize: nat) returns (length: nat)
    requires total >= 1 && hugeSize >= 1
    ensures length == (total + hugeSize - 1) / hugeSize * hugeSize
    ensures length % hugeSize == 0 && length / hugeSize == (total + hugeSize - 1) / hugeSize
    ensures total <= length < total + hugeSize
  {
    CeilDiv(total, hugeSize);
    length := hugeSize;
    ghost var k := 1;
    while length < total
      invariant length == k * hugeSize && k >= 1 && (k - 1) * hugeSize < total
      decreases total - length
    {
      length := length + hugeSize;
      k := k + 1;
    }
    CeilUnique(total, hugeSize, k, (total + hugeSize - 1) / hugeSize);
    DivModUnique(k, 0, hugeSize);
  }

  lemma CeilUnique(t: nat, d: nat, a: int, b: int)
    requires d >= 1 && a * d >= t && (a - 1) * d < t && b * d >= t && (b - 1) * d < t
    ensures a == b && a * d < t + d
  {
    assert (a - 1) * d == a * d - d && (b - 1) * d == b * d - d;
    assert a > b ==> (a - 1) * d >= b * d;
    assert b > a ==> (b - 1) * d >= a * d;
  }

  method FreeAligned(k: Kernel, buffer: Word, total: nat) returns (err: Error)
    requires total >= 1 && k.plat.hugeSize >= 1
    modifies k
    ensures err == if buffer % k.plat.hugeSize == 0 then ErrNone else ErrMunmap
    ensures err == ErrNone ==>
      k.mapped == Unmap(old(k.mapped), buffer / k.plat.hugeSize, (total + k.plat.hugeSize - 1) / k.plat.hugeSize)
  {
    var length := CoveringLength(total, k.plat.hugeSize);
    var ok := k.Munmap(buffer, length);
    err := if ok then ErrNone else ErrMunmap;
  }

  /** The search loop of alloc_aligned. */
  method SearchLoop(k: Kernel, q: Request, oldBuffers: array<Word>)
    returns (tries: nat, buffer: Option<Word>, err: Error)
    requires q.Valid() && k.plat == q.plat && q.maxTries >= 1 && oldBuffers.Length == q.maxTries
    modifies k, oldBuffers
    ensures tries <= q.maxTries
    ensures Search(k.mapped, oldBuffers[..tries], buffer, err) == SearchFrom(q, old(k.mapped), [], None)
    ensures buffer.Some? ==> buffer.value % q.plat.hugeSize == 0
    ensures forall i :: 0 <= i < tries ==> oldBuffers[i] % q.plat.hugeSize == 0
  {
    hide Feasible, MapRegion, TestFrom, PagemapOf, Platform.Valid, CacheInfo.Valid;
    tries, buffer, err := 0, None, ErrNone;
    while tries < q.maxTries
      invariant tries <= q.maxTries
      invariant SearchFrom(q, k.mapped, oldBuffers[..tries], buffer) == SearchFrom(q, old(k.mapped), [], None)
      invariant tries >= 1 ==> err == ErrNotAligned
      invariant buffer.Some? ==> buffer.value % q.plat.hugeSize == 0
      invariant forall i :: 0 <= i < tries ==> oldBuffers[i] % q.plat.hugeSize == 0
    {
      var attempt := q.policy(k.mapped, tries);
      buffer := k.Mmap(q.info, attempt.placement);
      if buffer.None? {
        err := ErrMmap;
        break;
      }
      err := TestAlignment(PagemapOf(q.plat, k.mapped, attempt.readable), q.plat.pageSize, q.plat.hugeSize,
                           buffer.value, q.info);
      if err == ErrNotAligned {
        oldBuffers[tries] := buffer.value;
        assert oldBuffers[..tries + 1] == oldBuffers[..tries] + [buffer.value];
      } else {
        break;
      }
      tries := tries + 1;
    }
  }

  /** alloc_aligned, with the number of hugepages already read. */
  method AllocAligned(k: Kernel, q: Request) returns (err: Error, buffer: Option<Word>)
    requires q.Valid() && k.plat == q.plat
    modifies k
    ensures q.maxTries < 1 ==> err == ErrNoHugepages && buffer == None && k.mapped == old(k.mapped)
    ensures q.maxTries >= 1 ==>
      Outcome(k.mapped, err, buffer) == AllocOutcome(q, SearchFrom(q, old(k.mapped), [], None))
  {
    hide SearchFrom, Unmap, Platform.Valid, CacheInfo.Valid;
    if q.maxTries < 1 { return ErrNoHugepages, None; }
    var oldBuffers := new Word[q.maxTries];
    var tries;
    tries, buffer, err := SearchLoop(k, q, oldBuffers);
    ghost var s := SearchFrom(q, old(k.mapped), [], None);
    var i := 0;
    assert s.rejected[..0] == [];
    while i < tries
      invariant i <= tries && oldBuffers[..tries] == s.rejected
      invariant k.mapped == RemoveAll(q, s.mapped, s.rejected[..i])
      invariant err == if i == 0 then s.err else ErrNone
    {
      err := FreeAligned(k, oldBuffers[i], q.info.totalSize);
      assert s.rejected[..i + 1][..i] == s.rejected[..i];
      i := i + 1;
    }
    assert s.rejected[..tries] == s.rejected;
    if tries < q.maxTries && err == ErrNone {
    } else if buffer.Some? {
      var e := FreeAligned(k, buffer.value, q.info.totalSize);
      if e != ErrNone { return e, buffer; }
    }
  }
}
