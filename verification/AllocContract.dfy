/** What alloc_aligned guarantees, and where its returned code goes wrong. */
module AllocContract {
  import opened Words
  import opened Errors
  import opened Geometry
  import opened Alignment
  import opened Alloc

  // ---------- mapping conservation ----------

  /** The search loop ended with ERROR_NONE. */
  ghost predicate FoundBy(q: Request, m0: Mapping)
    requires q.Valid() && q.maxTries >= 1
  {
    SearchFrom(q, m0, [], None).err == ErrNone
  }

  /** Mapping conservation: afterwards the mappings are the initial ones, plus the last candidate
      exactly when the loop stopped on it and the overwritten err reads ERROR_NONE. */
  lemma Conservation(q: Request, m0: Mapping)
    requires q.Valid() && q.maxTries >= 1 && ValidMapping(q.plat, m0)
    ensures var s := SearchFrom(q, m0, [], None); var o := AllocOutcome(q, s);
      if Candidate(q, s) && (s.err == ErrNone || s.rejected != []) then Extends(q, m0, o.mapped, o.buffer)
      else o.mapped == m0
    ensures FoundBy(q, m0) ==>
      Candidate(q, SearchFrom(q, m0, [], None))
  {
    hide SearchFrom, Layout, Extends, Unmap, Feasible;
    var s := SearchFrom(q, m0, [], None);
    StartLayout(q, m0);
    SearchLayout(q, m0, m0, [], None);
    var region := if Candidate(q, s) then s.buffer else None;
    CleanedUp(q, m0, s.mapped, s.rejected, region);
    var cleaned := RemoveAll(q, s.mapped, s.rejected);
    if !Candidate(q, s) {
      ExtendsNothing(q, m0, cleaned);
      if s.buffer.Some? {
        RejectedIsGone(q, m0, s.mapped, s.rejected, s.buffer.value);
        ReleaseRest(q, m0, cleaned, s.buffer.value);
      }
    } else if s.err != ErrNone && s.rejected == [] {
      ReleaseRest(q, m0, cleaned, s.buffer.value);
    }
  }

  lemma StartLayout(q: Request, m0: Mapping)
    requires q.plat.hugeSize >= 1 && ValidMapping(q.plat, m0)
    ensures Layout(q, m0, m0, [], None)
  {
  }

  lemma RejectedIsGone(q: Request, m0: Mapping, m: Mapping, rejected: seq<Word>, b: Word)
    requires q.plat.hugeSize >= 1 && Layout(q, m0, m, rejected, None) && b in rejected
    ensures forall v :: InRegion(q, Some(b), v) ==> v !in m0
  {
    forall v | InRegion(q, Some(b), v) ensures Covered(q, rejected, v) {}
  }

  // ---------- soundness ----------

  /** Every hugepage of the buffer is mapped, and every line of it is in place. */
  ghost predicate Usable(q: Request, m: Mapping, buffer: Option<Word>)
    requires q.Valid()
  {
    && buffer.Some?
    && Backed(q.plat, m, buffer.value, q.Size())
    && InPlace(Phys(q.plat, m), buffer.value, q.info)
  }

  lemma UnreadableFails(q: Request, m: Mapping, buffer: Word)
    requires q.Valid()
    ensures Test(q, m, false, buffer) == ErrPagemap
  {
    ValidBounds(q.info);
    LineInside(q.info, 0);
  }

  /** A test that passes has read the pagemap, so the buffer is usable. */
  lemma TestExact(q: Request, m: Mapping, readable: bool, p: Placement)
    requires q.Valid() && ValidMapping(q.plat, m) && Feasible(q.plat, m, p, q.Size())
    ensures var m' := MapRegion(m, p); var b := Address(q.plat, q.info, m, p);
      && ValidMapping(q.plat, m') && Backed(q.plat, m', b, q.Size())
      && (Test(q, m', readable, b) == ErrNone <==> readable && Usable(q, m', Some(b)))
      && (readable && !Usable(q, m', Some(b)) ==> Test(q, m', readable, b) == ErrNotAligned)
  {
    hide InPlace, Phys, TestFrom, PagemapOf, Platform.Valid, CacheInfo.Valid;
    var m', b := MapRegion(m, p), Address(q.plat, q.info, m, p);
    MapRegionValid(q.plat, m, p, q.Size());
    assert forall v :: p.base <= v < p.base + q.Size() ==> v in Region(p);
    UnreadableFails(q, m', b);
    SamplingExact(q.plat, m', q.info, b);
  }

  lemma {:induction false} SearchSound(q: Request, m: Mapping, rejected: seq<Word>, last: Option<Word>)
    requires q.Valid() && |rejected| <= q.maxTries && ValidMapping(q.plat, m)
    ensures var s := SearchFrom(q, m, rejected, last);
      s.err == ErrNone ==> Usable(q, s.mapped, s.buffer)
    decreases q.maxTries - |rejected|
  {
    if |rejected| < q.maxTries {
      var a := q.policy(m, |rejected|);
      if Feasible(q.plat, m, a.placement, q.Size()) {
        hide Test, Usable, Feasible, MapRegion, Address, ValidMapping;
        TestExact(q, m, a.readable, a.placement);
        var m', b := MapRegion(m, a.placement), Address(q.plat, q.info, m, a.placement);
        if Test(q, m', a.readable, b) == ErrNotAligned {
          SearchSound(q, m', rejected + [b], Some(b));
        }
      }
    }
  }

  /** Placement depends only on the frames behind the buffer. */
  lemma UsableElsewhere(q: Request, m: Mapping, m': Mapping, b: Word)
    requires q.Valid() && Usable(q, m, Some(b))
    requires forall v :: InRegion(q, Some(b), v) ==> v in m' && v in m && m'[v] == m[v]
    ensures Usable(q, m', Some(b))
  {
    hide LineId, Phys, CacheInfo.Valid, Platform.Valid;
    forall v | b / q.plat.hugeSize <= v < b / q.plat.hugeSize + q.Size() ensures v in m' {
      assert InRegion(q, Some(b), v);
    }
    forall i | 0 <= i < q.info.Lines() ensures LineId(Phys(q.plat, m'), b, q.info, i) == i {
      LineElsewhere(q, m, m', b, i);
    }
  }

  lemma LineElsewhere(q: Request, m: Mapping, m': Mapping, b: Word, i: nat)
    requires q.Valid() && b % q.plat.hugeSize == 0 && i < q.info.Lines()
    requires forall v :: InRegion(q, Some(b), v) ==> v in m' && v in m && m'[v] == m[v]
    ensures LineId(Phys(q.plat, m'), b, q.info, i) == LineId(Phys(q.plat, m), b, q.info, i)
  {
    hide CacheInfo.Valid, Platform.Valid, InRegion, Phys;
    LineInside(q.info, i);
    var offset := i * q.info.lineSize;
    SamePhys(q, m, m', b, offset);
  }

  lemma SamePhys(q: Request, m: Mapping, m': Mapping, b: Word, offset: nat)
    requires q.Valid() && b % q.plat.hugeSize == 0 && offset < q.info.totalSize
    requires forall v :: InRegion(q, Some(b), v) ==> v in m' && v in m && m'[v] == m[v]
    ensures Phys(q.plat, m')(b + offset) == Phys(q.plat, m)(b + offset)
  {
    hide CacheInfo.Valid, Platform.Valid, InRegion;
    var v: nat := (b + offset) / q.plat.hugeSize;
    ByteInRegion(q, b, offset, v);
  }

  lemma ByteInRegion(q: Request, b: Word, offset: nat, v: nat)
    requires q.Valid() && b % q.plat.hugeSize == 0 && offset < q.info.totalSize
    requires v == (b + offset) / q.plat.hugeSize
    ensures InRegion(q, Some(b), v)
  {
    BlockOfOffset(b, q.plat.hugeSize, offset, q.info.totalSize);
  }

  /** The clean-up does not touch the candidate. */
  lemma CandidateKept(q: Request, m0: Mapping)
    requires q.Valid() && ValidMapping(q.plat, m0)
    ensures var s := SearchFrom(q, m0, [], None);
      Candidate(q, s) ==>
        (Usable(q, RemoveAll(q, s.mapped, s.rejected), s.buffer) <==> Usable(q, s.mapped, s.buffer))
  {
    hide SearchFrom, Usable, Covered, InRegion, Fits;
    var s := SearchFrom(q, m0, [], None);
    if Candidate(q, s) {
      StartLayout(q, m0);
      SearchLayout(q, m0, m0, [], None);
      RemoveAllKeys(q, s.mapped, s.rejected);
      var cleaned := RemoveAll(q, s.mapped, s.rejected);
      if Usable(q, s.mapped, s.buffer) {
        UsableElsewhere(q, s.mapped, cleaned, s.buffer.value);
      }
      if Usable(q, cleaned, s.buffer) {
        UsableElsewhere(q, cleaned, s.mapped, s.buffer.value);
      }
    }
  }

  /** A search that ended with ERROR_NONE leaves an aligned buffer mapped after the clean-up. */
  lemma FoundIsUsable(q: Request, m0: Mapping)
    requires q.Valid() && q.maxTries >= 1 && ValidMapping(q.plat, m0) && FoundBy(q, m0)
    ensures var o := AllocOutcome(q, SearchFrom(q, m0, [], None));
      o.err == ErrNone && Usable(q, o.mapped, o.buffer) && ValidMapping(q.plat, o.mapped)
  {
    hide SearchFrom, Usable, Unmap, Feasible, Covered, InRegion, Fits;
    var s := SearchFrom(q, m0, [], None);
    StartLayout(q, m0);
    SearchLayout(q, m0, m0, [], None);
    SearchSound(q, m0, [], None);
    RemoveAllKeys(q, s.mapped, s.rejected);
    CandidateKept(q, m0);
  }

  // ---------- completeness for buffers of one hugepage ----------

  /** A hugepage frame whose first byte falls on line 0 of the cache. */
  ghost predicate FrameAligned(q: Request, f: nat)
    requires q.info.totalSize >= 1 && q.info.lineSize >= 1
  {
    (f * q.plat.hugeSize % q.info.totalSize) / q.info.lineSize == 0
  }

  ghost predicate SomeAligned(q: Request, m: Mapping)
    requires q.info.totalSize >= 1 && q.info.lineSize >= 1
  {
    exists f :: f in Free(q.plat, m) && FrameAligned(q, f)
  }

  /** The kernel refuses a try only when no placement is possible, and the pagemap is readable. */
  ghost predicate Honest(q: Request)
    requires q.plat.hugeSize >= 1
  {
    forall m: Mapping, t: nat ::
      q.policy(m, t).readable
      && (CanPlace(q, m) ==> Feasible(q.plat, m, q.policy(m, t).placement, q.Size()))
  }

  ghost predicate CanPlace(q: Request, m: Mapping)
    requires q.plat.hugeSize >= 1
  {
    exists p :: Feasible(q.plat, m, p, q.Size())
  }

  /** Virtual address space does not run out before the pool does. */
  ghost predicate Roomy(q: Request, m: Mapping)
    requires q.plat.hugeSize >= 1
  {
    |m| + |Free(q.plat, m)| < TWO_TO_64 / q.plat.hugeSize
  }

  lemma SubsetSize(a: set<nat>, b: set<nat>)
    requires a <= b
    ensures |a| <= |b|
  {
    assert b == a + (b - a);
  }

  lemma OneHugepage(q: Request, m: Mapping, b: Word)
    requires q.Valid() && q.Size() == 1 && Backed(q.plat, m, b, 1)
    ensures b / q.plat.hugeSize in m
    ensures Usable(q, m, Some(b)) <==> FrameAligned(q, m[b / q.plat.hugeSize])
  {
    InOneHugepage(q);
    FirstLine(q, m, b);
    hide LineId, Phys, FrameAligned, Platform.Valid, CacheInfo.Valid, CacheInfo.Lines;
    if LineId(Phys(q.plat, m), b, q.info, 0) == 0 {
      forall i | 0 <= i < q.info.Lines() ensures LineId(Phys(q.plat, m), b, q.info, i) == i {
        SampleCovers(q.plat, m, q.info, b, 0, 0, i);
      }
    }
  }

  lemma InOneHugepage(q: Request)
    requires q.Valid() && q.Size() == 1
    ensures 1 <= q.info.Lines() <= q.plat.hugeSize / q.info.lineSize
  {
    var r := q.plat.hugeSize / q.info.lineSize;
    CeilDiv(q.info.totalSize, q.plat.hugeSize);
    DivModBounds(q.plat.hugeSize, q.info.lineSize);
    ValidBounds(q.info);
    ValidSizes(q.info);
    if q.info.Lines() > r {
      MulMono(r + 1, q.info.Lines(), q.info.lineSize);
      MulStep(r, q.info.lineSize);
    }
  }

  /** The first line of a buffer is in place iff its first frame falls on line 0. */
  lemma FirstLine(q: Request, m: Mapping, b: Word)
    requires q.Valid() && Backed(q.plat, m, b, 1)
    ensures b / q.plat.hugeSize in m
    ensures LineId(Phys(q.plat, m), b, q.info, 0) == 0 <==> FrameAligned(q, m[b / q.plat.hugeSize])
  {
    hide Phys, LineId, Platform.Valid, CacheInfo.Valid, CacheInfo.Lines;
    var H, line := q.plat.hugeSize, q.info.lineSize;
    var r, f := H / line, m[b / H];
    LineIdInHugepage(q.plat, m, q.info, b, 0, 0);
    ValidSizes(q.info);
    DivModBounds(H, line);
    Distribute(f, r, 0, line);
    LineNumber(f * r, line, q.info.Lines());
  }

  lemma FreeSlot(q: Request, m: Mapping) returns (v: nat)
    requires q.plat.hugeSize >= 1 && |m| < TWO_TO_64 / q.plat.hugeSize
    ensures v !in m && (v + 1) * q.plat.hugeSize <= TWO_TO_64
  {
    var slots := TWO_TO_64 / q.plat.hugeSize;
    if Range(0, slots) <= m.Keys {
      SubsetSize(Range(0, slots), m.Keys);
    }
    v :| v in Range(0, slots) && v !in m.Keys;
    DivModBounds(TWO_TO_64, q.plat.hugeSize);
    MulMono(v + 1, slots, q.plat.hugeSize);
  }

  lemma FeasibleOne(q: Request, m: Mapping, v: nat, f: nat)
    requires v !in m && (v + 1) * q.plat.hugeSize <= TWO_TO_64 && f in Free(q.plat, m)
    ensures Feasible(q.plat, m, Placement(v, [f]), 1)
  {
    hide Free;
  }

  lemma RoomForOne(q: Request, m: Mapping)
    requires q.plat.hugeSize >= 1 && q.Size() == 1
    ensures CanPlace(q, m) ==> Free(q.plat, m) != {}
    ensures Free(q.plat, m) != {} && Roomy(q, m) ==> CanPlace(q, m)
  {
    hide Free;
    if p :| Feasible(q.plat, m, p, q.Size()) {
      assert p.frames[0] in Free(q.plat, m);
    }
    if Free(q.plat, m) != {} && Roomy(q, m) {
      hide Feasible;
      var f :| f in Free(q.plat, m);
      var v := FreeSlot(q, m);
      FeasibleOne(q, m, v, f);
    }
  }

  lemma AddEntry(m: Mapping, k: nat, f: nat)
    requires k !in m
    ensures m[k := f].Values == m.Values + {f}
    ensures |m[k := f]| == |m| + 1
  {
    var m' := m[k := f];
    assert m'.Keys == m.Keys + {k};
    forall x ensures x in m'.Values <==> x in m.Values + {f} {
      if x in m.Values {
        var v :| v in m && m[v] == x;
        assert m'[v] == x;
      }
      assert m'[k] == f;
    }
  }

  lemma MapOne(m: Mapping, p: Placement)
    requires |p.frames| == 1
    ensures MapRegion(m, p) == m[p.base := p.frames[0]]
  {
    assert forall v :: v in Region(p) <==> v == p.base;
  }

  /** Each try takes a different frame out of the pool. */
  lemma TakesOneFrame(q: Request, m: Mapping, p: Placement)
    requires q.plat.hugeSize >= 1 && q.Size() == 1 && Feasible(q.plat, m, p, 1)
    ensures |p.frames| == 1
    ensures var f := p.frames[0]; var m' := MapRegion(m, p);
      && f in Free(q.plat, m) && Free(q.plat, m') == Free(q.plat, m) - {f}
      && |Free(q.plat, m')| == |Free(q.plat, m)| - 1 && |m'| == |m| + 1
      && p.base in m' && m'[p.base] == f
  {
    assert |p.frames| == 1 && p.base !in m && p.frames[0] in Free(q.plat, m);
    hide Feasible, MapRegion, Free;
    MapOne(m, p);
    FrameTaken(q.plat, m, p.base, p.frames[0]);
  }

  lemma FrameTaken(plat: Platform, m: Mapping, k: nat, f: nat)
    requires k !in m && f in Free(plat, m)
    ensures Free(plat, m[k := f]) == Free(plat, m) - {f}
    ensures |Free(plat, m[k := f])| == |Free(plat, m)| - 1 && |m[k := f]| == |m| + 1
  {
    AddEntry(m, k, f);
  }

  /** Pigeonhole: the search tries every free hugepage before it gives up, so it succeeds exactly
      when one of them is aligned. */
  lemma {:induction false} SearchComplete(q: Request, m: Mapping, rejected: seq<Word>, last: Option<Word>)
    requires q.Valid() && q.Size() == 1 && Honest(q) && ValidMapping(q.plat, m) && Roomy(q, m)
    requires |rejected| + |Free(q.plat, m)| <= q.maxTries
    ensures var s := SearchFrom(q, m, rejected, last);
      && (s.err == ErrNone <==> SomeAligned(q, m))
      && |rejected| <= |s.rejected|
      && (s.err != ErrNone && Free(q.plat, m) != {} ==> |rejected| < |s.rejected|)
      && (s.err != ErrNone ==> s.err == ErrMmap || s.err == ErrNotAligned)
    decreases |Free(q.plat, m)|
  {
    hide Feasible, Test, Usable, MapRegion, Address, ValidMapping, Free, FrameAligned, Platform.Valid, CacheInfo.Valid;
    RoomForOne(q, m);
    if |rejected| < q.maxTries {
      var a := q.policy(m, |rejected|);
      assert a.readable;
      if Feasible(q.plat, m, a.placement, q.Size()) {
        TestExact(q, m, a.readable, a.placement);
        TakesOneFrame(q, m, a.placement);
        var m', b, f := MapRegion(m, a.placement), Address(q.plat, q.info, m, a.placement), a.placement.frames[0];
        OneHugepage(q, m', b);
        assert Usable(q, m', Some(b)) <==> FrameAligned(q, f);
        if !FrameAligned(q, f) {
          SearchComplete(q, m', rejected + [b], Some(b));
        }
      }
    }
  }

  // ---------- the returned code ----------

  /** The caller can rely on the code: ERROR_NONE exactly when the buffer is usable. */
  ghost predicate Truthful(q: Request, o: Outcome)
    requires q.Valid()
  {
    o.err == ErrNone <==> Usable(q, o.mapped, o.buffer)
  }

  lemma NotUsableWhenReleased(q: Request, m0: Mapping)
    requires q.Valid() && q.maxTries >= 1 && ValidMapping(q.plat, m0)
    ensures var s := SearchFrom(q, m0, [], None); var o := AllocOutcome(q, s);
      s.err == ErrMmap || s.err == ErrNotAligned ==> !Usable(q, o.mapped, o.buffer)
  {
    hide SearchFrom, Layout, RemoveAll, Release, Feasible, Usable, InRegion, Platform.Valid, CacheInfo.Valid;
    var s := SearchFrom(q, m0, [], None);
    Conservation(q, m0);
    StartLayout(q, m0);
    SearchLayout(q, m0, m0, [], None);
    NullNotUsable(q, m0);
    if (s.err == ErrMmap || s.err == ErrNotAligned) && s.buffer.Some? {
      RejectedIsGone(q, m0, s.mapped, s.rejected, s.buffer.value);
      UnmappedNotUsable(q, m0, s.buffer.value);
    }
  }

  lemma NullNotUsable(q: Request, m: Mapping)
    requires q.Valid()
    ensures !Usable(q, m, None)
  {
  }

  lemma UnmappedNotUsable(q: Request, m: Mapping, b: Word)
    requires q.Valid() && forall v :: InRegion(q, Some(b), v) ==> v !in m
    ensures !Usable(q, m, Some(b))
  {
    hide InPlace, Phys, Fits, Needed;
    DivModBounds(b, q.plat.hugeSize);
    var v := b / q.plat.hugeSize;
    assert InRegion(q, Some(b), v);
  }

  ghost predicate AlwaysReadable(q: Request) {
    forall m: Mapping, t: nat :: q.policy(m, t).readable
  }

  lemma {:induction false} SearchCodes(q: Request, m: Mapping, rejected: seq<Word>, last: Option<Word>)
    requires q.Valid() && |rejected| <= q.maxTries && ValidMapping(q.plat, m) && AlwaysReadable(q)
    ensures var e := SearchFrom(q, m, rejected, last).err;
      e == ErrNone || e == ErrMmap || e == ErrNotAligned
    decreases q.maxTries - |rejected|
  {
    if |rejected| < q.maxTries {
      var a := q.policy(m, |rejected|);
      if Feasible(q.plat, m, a.placement, q.Size()) {
        hide Test, Usable, Feasible, MapRegion, Address, ValidMapping, Fits;
        TestExact(q, m, a.readable, a.placement);
        var m', b := MapRegion(m, a.placement), Address(q.plat, q.info, m, a.placement);
        if Test(q, m', a.readable, b) == ErrNotAligned {
          SearchCodes(q, m', rejected + [b], Some(b));
        }
      }
    }
  }

  /** A candidate given back because nothing had been rejected is not mapped any more. */
  lemma ReleasedCandidate(q: Request, m0: Mapping)
    requires q.Valid() && q.maxTries >= 1 && ValidMapping(q.plat, m0)
    ensures var s := SearchFrom(q, m0, [], None); var o := AllocOutcome(q, s);
      Candidate(q, s) && s.err != ErrNone && s.rejected == [] ==> o.err == s.err && !Usable(q, o.mapped, o.buffer)
  {
    hide SearchFrom, RemoveAll, Release, Usable, InRegion, Covered, Fits;
    var s := SearchFrom(q, m0, [], None);
    StartLayout(q, m0);
    SearchLayout(q, m0, m0, [], None);
    Conservation(q, m0);
    if Candidate(q, s) && s.err != ErrNone && s.rejected == [] {
      UnmappedNotUsable(q, m0, s.buffer.value);
    }
  }

  /** For buffers of any size, every kernel and every readability of the pagemap, the returned code is
      right exactly when nothing was rejected, or the search succeeded, or a later try stopped on an
      error and the untested buffer happens to be in place. */
  lemma TruthfulInGeneral(q: Request, m0: Mapping)
    requires q.Valid() && q.maxTries >= 1 && ValidMapping(q.plat, m0)
    ensures var s := SearchFrom(q, m0, [], None);
      Truthful(q, AllocOutcome(q, s)) <==>
        s.rejected == [] || s.err == ErrNone || (Candidate(q, s) && Usable(q, s.mapped, s.buffer))
  {
    hide SearchFrom, Usable, RemoveAll, Release, Fits, ValidMapping;
    var s := SearchFrom(q, m0, [], None);
    NotUsableWhenReleased(q, m0);
    ReleasedCandidate(q, m0);
    CandidateKept(q, m0);
    StopsOnCandidate(q, m0);
    if FoundBy(q, m0) {
      FoundIsUsable(q, m0);
    }
  }

  lemma StopsOnCandidate(q: Request, m0: Mapping)
    requires q.Valid() && ValidMapping(q.plat, m0)
    ensures var s := SearchFrom(q, m0, [], None); Candidate(q, s) <==> s.err != ErrMmap && s.err != ErrNotAligned
  {
    hide SearchFrom, Layout;
    StartLayout(q, m0);
    SearchLayout(q, m0, m0, [], None);
  }

  /** With a readable pagemap: exactly when nothing was rejected or the search succeeded. */
  lemma TruthfulWhenReadable(q: Request, m0: Mapping)
    requires q.Valid() && q.maxTries >= 1 && ValidMapping(q.plat, m0) && AlwaysReadable(q)
    ensures var s := SearchFrom(q, m0, [], None);
      Truthful(q, AllocOutcome(q, s)) <==> s.rejected == [] || s.err == ErrNone
  {
    hide SearchFrom, Usable, AllocOutcome, Fits, ValidMapping, Truthful;
    TruthfulInGeneral(q, m0);
    SearchCodes(q, m0, [], None);
    StopsOnCandidate(q, m0);
  }

  /** For a buffer of one hugepage and an honest kernel, the returned code is right exactly when the
      pool is exhausted from the start or holds an aligned hugepage.  In all other cases
      alloc_aligned returns ERROR_NONE although it has no buffer. */
  lemma TruthfulExactly(q: Request, m0: Mapping)
    requires q.Valid() && q.Size() == 1 && Honest(q) && ValidMapping(q.plat, m0) && Roomy(q, m0)
    requires q.maxTries >= 1 && |Free(q.plat, m0)| <= q.maxTries
    ensures var o := AllocOutcome(q, SearchFrom(q, m0, [], None));
      && (Truthful(q, o) <==> Free(q.plat, m0) == {} || SomeAligned(q, m0))
      && (SomeAligned(q, m0) ==> o.err == ErrNone && Usable(q, o.mapped, o.buffer))
      && (!SomeAligned(q, m0) ==> !Usable(q, o.mapped, o.buffer))
      && (o.err != ErrNone <==> Free(q.plat, m0) == {})
  {
    hide SearchFrom, Usable, Free, FrameAligned, RemoveAll, Release, Honest;
    SearchComplete(q, m0, [], None);
    if SomeAligned(q, m0) {
      FoundIsUsable(q, m0);
      assert Free(q.plat, m0) != {};
    } else {
      NotUsableWhenReleased(q, m0);
      if Free(q.plat, m0) == {} {
        NothingToReject(q, m0);
      }
    }
  }

  lemma NothingToReject(q: Request, m0: Mapping)
    requires q.Valid() && q.Size() == 1 && q.maxTries >= 1 && Free(q.plat, m0) == {}
    ensures SearchFrom(q, m0, [], None) == Search(m0, [], None, ErrMmap)
  {
    RoomForOne(q, m0);
    assert CanPlace(q, m0) <==> exists p :: Feasible(q.plat, m0, p, q.Size());
  }
}
