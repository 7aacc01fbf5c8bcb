/** For which buffer sizes the search is complete: honest kernels, the one that defeats the search
    whenever a buffer needs several hugepages, and the exact condition. */
module AllocSizes {
  import opened Words
  import opened Errors
  import opened Geometry
  import opened Alignment
  import opened Alloc
  import opened AllocContract

  // ---------- an honest kernel ----------

  ghost function AnyPlacement(plat: Platform, m: Mapping, n: nat): (p: Placement)
    ensures (exists p :: Feasible(plat, m, p, n)) ==> Feasible(plat, m, p, n)
  {
    if exists p :: Feasible(plat, m, p, n) then
      var p :| Feasible(plat, m, p, n);
      p
    else Placement(0, [])
  }

  /** Every platform has an honest kernel, so the completeness results are about real cases. */
  lemma HonestKernelExists(plat: Platform, info: CacheInfo, maxTries: nat) returns (q: Request)
    requires Fits(plat, info)
    ensures q.plat == plat && q.info == info && q.maxTries == maxTries && q.Valid() && Honest(q)
  {
    ghost var n := if plat.hugeSize >= 1 then Needed(plat, info) else 0;
    q := Request(plat, info, (m: Mapping, t: nat) => Attempt(AnyPlacement(plat, m, n), true), maxTries);
    RequestValid(q);
    hide Feasible, Request.Valid;
  }

  // ---------- where a buffer could be aligned ----------

  /** mmap could answer with p, and the buffer would be usable. */
  ghost predicate Good(q: Request, m: Mapping, p: Placement)
    requires q.Valid()
  {
    Feasible(q.plat, m, p, q.Size()) && Usable(q, MapRegion(m, p), Some(Address(q.plat, q.info, m, p)))
  }

  ghost predicate CanAlign(q: Request, m: Mapping)
    requires q.Valid()
  {
    exists p :: Good(q, m, p)
  }

  lemma GoodTest(q: Request, m: Mapping, p: Placement)
    requires q.Valid() && ValidMapping(q.plat, m) && Feasible(q.plat, m, p, q.Size())
    ensures Test(q, MapRegion(m, p), true, Address(q.plat, q.info, m, p)) == ErrNone <==> Good(q, m, p)
    ensures !Good(q, m, p) ==> Test(q, MapRegion(m, p), true, Address(q.plat, q.info, m, p)) == ErrNotAligned
    ensures ValidMapping(q.plat, MapRegion(m, p))
  {
    hide Usable, Test, Feasible, MapRegion, Address, ValidMapping, Fits;
    TestExact(q, m, true, p);
  }

  /** A placement that is still possible after a rejected try was possible before it. */
  lemma GoodBefore(q: Request, m: Mapping, rejected: Placement, p: Placement)
    requires q.Valid() && Feasible(q.plat, m, rejected, q.Size()) && Good(q, MapRegion(m, rejected), p)
    ensures Good(q, m, p)
  {
    hide Usable, InRegion, Address, Fits;
    var m' := MapRegion(m, rejected);
    FeasibleBefore(q.plat, m, rejected, p, q.Size());
    var b := Address(q.plat, q.info, m, p);
    SameAddress(q, m, m', p);
    forall v | InRegion(q, Some(b), v)
      ensures v in MapRegion(m, p) && v in MapRegion(m', p) && MapRegion(m, p)[v] == MapRegion(m', p)[v]
    {
      RegionFrames(q, m, p, v);
      RegionFrames(q, m', p, v);
    }
    UsableElsewhere(q, MapRegion(m', p), MapRegion(m, p), b);
  }

  lemma SameAddress(q: Request, m: Mapping, m': Mapping, p: Placement)
    requires q.Valid() && Feasible(q.plat, m, p, q.Size()) && Feasible(q.plat, m', p, q.Size())
    ensures Address(q.plat, q.info, m, p) == Address(q.plat, q.info, m', p)
  {
  }

  lemma RegionFrames(q: Request, m: Mapping, p: Placement, v: nat)
    requires q.Valid() && Feasible(q.plat, m, p, q.Size())
    requires InRegion(q, Some(Address(q.plat, q.info, m, p)), v)
    ensures p.base <= v < p.base + |p.frames|
    ensures v in MapRegion(m, p) && MapRegion(m, p)[v] == p.frames[v - p.base]
  {
    assert v in Region(p);
  }

  lemma FeasibleBefore(plat: Platform, m: Mapping, rejected: Placement, p: Placement, n: nat)
    requires Feasible(plat, m, rejected, n) && Feasible(plat, MapRegion(m, rejected), p, n)
    ensures Feasible(plat, m, p, n)
  {
    var m' := MapRegion(m, rejected);
    forall v | v in m ensures v in m' && m'[v] == m[v] {
    }
    forall f | f in m.Values ensures f in m'.Values {
      var v :| v in m && m[v] == f;
      assert m'[v] == f;
    }
  }

  /** For buffers of any size and every kernel: a search can only succeed when the buffer could have been
      aligned at the start. */
  lemma {:induction false} SuccessNeedsPlacement(q: Request, m: Mapping, rejected: seq<Word>, last: Option<Word>)
    requires q.Valid() && |rejected| <= q.maxTries && ValidMapping(q.plat, m)
    ensures SearchFrom(q, m, rejected, last).err == ErrNone ==> CanAlign(q, m)
    decreases q.maxTries - |rejected|
  {
    if |rejected| < q.maxTries {
      var a := q.policy(m, |rejected|);
      if Feasible(q.plat, m, a.placement, q.Size()) {
        hide Test, Feasible, MapRegion, Address, ValidMapping, Good;
        GoodTest(q, m, a.placement);
        var m', b := MapRegion(m, a.placement), Address(q.plat, q.info, m, a.placement);
        if !a.readable {
          UnreadableFails(q, m', b);
        }
        if Test(q, m', a.readable, b) == ErrNotAligned {
          SuccessNeedsPlacement(q, m', rejected + [b], Some(b));
          if p :| Good(q, m', p) {
            GoodBefore(q, m, a.placement, p);
          }
        }
      }
    }
  }

  // ---------- the kernel that defeats the search ----------

  function Swapped(p: Placement): Placement
    requires |p.frames| >= 2
  {
    Placement(p.base, [p.frames[1], p.frames[0]] + p.frames[2..])
  }

  /** The first byte of the frame falls on line 0 of the cache. */
  predicate OnLineZero(plat: Platform, info: CacheInfo, f: nat) {
    info.lineSize >= 1 && info.Lines() >= 1 && (f * (plat.hugeSize / info.lineSize)) % info.Lines() == 0
  }

  /** Any possible placement, but a frame that would be right in front is handed out second. */
  ghost function ShuffledPlacement(plat: Platform, info: CacheInfo, m: Mapping, n: nat): Placement {
    var p := AnyPlacement(plat, m, n);
    if |p.frames| >= 2 && OnLineZero(plat, info, p.frames[0]) then Swapped(p) else p
  }

  ghost function Shuffling(plat: Platform, info: CacheInfo, n: nat, maxTries: nat): Request {
    Request(plat, info, (m: Mapping, t: nat) => Attempt(ShuffledPlacement(plat, info, m, n), true), maxTries)
  }

  lemma SwappedFeasible(plat: Platform, m: Mapping, p: Placement, n: nat)
    requires n >= 2 && |p.frames| == n
    ensures Feasible(plat, m, Swapped(p), n) <==> Feasible(plat, m, p, n)
  {
    var s := Swapped(p);
    assert s.frames[0] == p.frames[1] && s.frames[1] == p.frames[0];
    assert forall i :: 2 <= i < n ==> s.frames[i] == p.frames[i];
    hide Free;
  }

  lemma ShuffledFeasible(plat: Platform, info: CacheInfo, m: Mapping, n: nat)
    requires n >= 2 && exists p :: Feasible(plat, m, p, n)
    ensures Feasible(plat, m, ShuffledPlacement(plat, info, m, n), n)
  {
    var p := AnyPlacement(plat, m, n);
    assert |p.frames| == n;
    SwappedFeasible(plat, m, p, n);
    hide Feasible;
  }

  lemma ShufflingHonest(plat: Platform, info: CacheInfo, maxTries: nat)
    requires Fits(plat, info) && plat.hugeSize >= 1 && Needed(plat, info) >= 2
    ensures Shuffling(plat, info, Needed(plat, info), maxTries).Valid()
    ensures Honest(Shuffling(plat, info, Needed(plat, info), maxTries))
  {
    var q := Shuffling(plat, info, Needed(plat, info), maxTries);
    RequestValid(q);
    hide Feasible, Request.Valid, ShuffledPlacement;
    forall m: Mapping, t: nat
      ensures CanPlace(q, m) ==> Feasible(plat, m, q.policy(m, t).placement, q.Size())
    {
      if CanPlace(q, m) {
        ShuffledFeasible(plat, info, m, q.Size());
      }
    }
  }

  lemma NotInPlace(q: Request, m: Mapping, b: Word, i: nat)
    requires q.Valid() && i < q.info.Lines() && LineId(Phys(q.plat, m), b, q.info, i) != i
    ensures !Usable(q, m, Some(b))
  {
    hide LineId, Phys;
  }

  /** The buffer is longer than one hugepage. */
  lemma SeveralPages(q: Request)
    requires q.Valid() && q.Size() >= 2
    ensures 1 <= q.plat.hugeSize / q.info.lineSize < q.info.Lines()
  {
    var H, r := q.plat.hugeSize, q.plat.hugeSize / q.info.lineSize;
    CeilDiv(q.info.totalSize, H);
    MulMono(1, q.Size() - 1, H);
    DivModBounds(H, q.info.lineSize);
    ValidSizes(q.info);
    if q.info.Lines() <= r {
      MulMono(q.info.Lines(), r, q.info.lineSize);
    }
  }

  /** A wrong frame in hugepage j rules a placement out. */
  lemma FrameDecides(q: Request, m: Mapping, p: Placement, j: nat)
    requires q.Valid() && ValidMapping(q.plat, m) && Feasible(q.plat, m, p, q.Size())
    requires j < q.Size() && 1 <= q.info.Lines() && j * (q.plat.hugeSize / q.info.lineSize) < q.info.Lines()
    requires (p.frames[j] * (q.plat.hugeSize / q.info.lineSize)) % q.info.Lines()
          != j * (q.plat.hugeSize / q.info.lineSize)
    ensures !Good(q, m, p)
  {
    hide Usable, Fits, ValidMapping, Free, Phys, LineId, CacheInfo.Lines;
    var m', b := MapRegion(m, p), Address(q.plat, q.info, m, p);
    assert p.base + j in Region(p);
    LineIdInHugepage(q.plat, m', q.info, b, j, 0);
    NotInPlace(q, m', b, j * (q.plat.hugeSize / q.info.lineSize));
  }

  lemma ShuffledRejected(q: Request, m: Mapping)
    requires q.Valid() && q.Size() >= 2 && ValidMapping(q.plat, m)
    requires Feasible(q.plat, m, ShuffledPlacement(q.plat, q.info, m, q.Size()), q.Size())
    ensures !Good(q, m, ShuffledPlacement(q.plat, q.info, m, q.Size()))
  {
    var p := AnyPlacement(q.plat, m, q.Size());
    var s := ShuffledPlacement(q.plat, q.info, m, q.Size());
    SeveralPages(q);
    ValidBounds(q.info);
    hide Good, Fits, ValidMapping, AnyPlacement, CacheInfo.Lines;
    if |p.frames| >= 2 && OnLineZero(q.plat, q.info, p.frames[0]) {
      assert s.frames[1] == p.frames[0];
      FrameDecides(q, m, s, 1);
    } else {
      FrameDecides(q, m, s, 0);
    }
  }

  lemma {:induction false} ShufflingFails(q: Request, m: Mapping, rejected: seq<Word>, last: Option<Word>)
    requires q.Valid() && q.Size() >= 2 && ValidMapping(q.plat, m) && |rejected| <= q.maxTries
    requires forall m, t :: q.policy(m, t) == Attempt(ShuffledPlacement(q.plat, q.info, m, q.Size()), true)
    ensures SearchFrom(q, m, rejected, last).err != ErrNone
    decreases q.maxTries - |rejected|
  {
    if |rejected| < q.maxTries {
      var a := q.policy(m, |rejected|);
      if Feasible(q.plat, m, a.placement, q.Size()) {
        hide Test, Feasible, MapRegion, Address, ValidMapping, Good, ShuffledPlacement;
        ShuffledRejected(q, m);
        GoodTest(q, m, a.placement);
        var b := Address(q.plat, q.info, m, a.placement);
        ShufflingFails(q, MapRegion(m, a.placement), rejected + [b], Some(b));
      }
    }
  }

  /** For every cache that needs several hugepages there is an honest kernel that defeats the search: with
      any number of tries, and from any mapping, whatever the pool holds. */
  lemma HonestKernelDefeats(plat: Platform, info: CacheInfo, maxTries: nat) returns (q: Request)
    requires Fits(plat, info) && plat.hugeSize >= 1 && Needed(plat, info) >= 2
    ensures q.plat == plat && q.info == info && q.maxTries == maxTries && q.Valid() && Honest(q)
    ensures forall m :: ValidMapping(plat, m) ==> SearchFrom(q, m, [], None).err != ErrNone
  {
    q := Shuffling(plat, info, Needed(plat, info), maxTries);
    ShufflingHonest(plat, info, maxTries);
    hide SearchFrom, ShuffledPlacement, ValidMapping, Request.Valid, Honest;
    forall m | ValidMapping(plat, m) ensures SearchFrom(q, m, [], None).err != ErrNone {
      ShufflingFails(q, m, [], None);
    }
  }

  // ---------- the exact condition ----------

  /** An honest kernel for the machine and the cache of q, with at least one try per free hugepage. */
  ghost predicate HonestFor(q: Request, m: Mapping, r: Request)
    requires q.plat.hugeSize >= 1
  {
    && r.plat == q.plat && r.info == q.info && r.Valid() && Honest(r)
    && 1 <= r.maxTries && |Free(q.plat, m)| <= r.maxTries
  }

  ghost predicate Succeeds(r: Request, m: Mapping) {
    r.Valid() && SearchFrom(r, m, [], None).err == ErrNone
  }

  /** Whatever an honest kernel answers, the search succeeds. */
  ghost predicate Guaranteed(q: Request, m: Mapping)
    requires q.plat.hugeSize >= 1
  {
    forall r :: HonestFor(q, m, r) ==> Succeeds(r, m)
  }

  lemma OneFrameAligned(q: Request, m: Mapping)
    requires q.Valid() && q.Size() == 1 && CanAlign(q, m)
    ensures SomeAligned(q, m)
  {
    hide Usable, Feasible, Fits, MapRegion, Address, FrameAligned, Free;
    var p :| Good(q, m, p);
    TakesOneFrame(q, m, p);
    BackedWhenUsable(q, MapRegion(m, p), Address(q.plat, q.info, m, p));
    OneHugepage(q, MapRegion(m, p), Address(q.plat, q.info, m, p));
  }

  lemma BackedWhenUsable(q: Request, m: Mapping, b: Word)
    requires q.Valid() && Usable(q, m, Some(b))
    ensures Backed(q.plat, m, b, q.Size())
  {
  }

  lemma SameMachine(q: Request, r: Request, m: Mapping)
    requires q.Valid() && r.Valid() && r.plat == q.plat && r.info == q.info
    ensures q.Size() == r.Size() && (CanAlign(q, m) <==> CanAlign(r, m)) && (Roomy(q, m) <==> Roomy(r, m))
    ensures forall p :: Good(q, m, p) <==> Good(r, m, p)
  {
    hide Feasible, Fits, Address, MapRegion, InPlace;
    assert forall p :: Good(q, m, p) <==> Good(r, m, p);
  }

  /** The search is complete exactly for buffers of one hugepage: every honest kernel lets it succeed iff
      the buffer needs a single hugepage and could be aligned. */
  lemma CompleteExactly(q: Request, m: Mapping)
    requires q.Valid() && ValidMapping(q.plat, m) && Roomy(q, m)
    ensures Guaranteed(q, m) <==> q.Size() == 1 && CanAlign(q, m)
  {
    hide SearchFrom, Honest, Request.Valid, ValidMapping, CanAlign, Roomy, Free;
    var n := |Free(q.plat, m)| + 1;
    var size := FitsOf(q);
    if q.Size() == 1 {
      if Guaranteed(q, m) {
        var r := HonestKernelExists(q.plat, q.info, n);
        assert HonestFor(q, m, r);
        SuccessNeedsPlacement(r, m, [], None);
        SameMachine(q, r, m);
      }
      if CanAlign(q, m) {
        forall r | HonestFor(q, m, r) ensures Succeeds(r, m) {
          SameMachine(q, r, m);
          OneFrameAligned(r, m);
          SearchComplete(r, m, [], None);
        }
      }
    } else {
      var r := HonestKernelDefeats(q.plat, q.info, n);
      assert HonestFor(q, m, r) && !Succeeds(r, m);
    }
  }

  lemma FitsOf(q: Request) returns (size: nat)
    requires q.Valid()
    ensures Fits(q.plat, q.info) && q.plat.hugeSize >= 1 && size == q.Size() == Needed(q.plat, q.info) >= 1
  {
    size := q.Size();
  }

  /** The kernel that answers with an aligned placement as long as there is one. */
  ghost function Helpful(q: Request, m: Mapping): Attempt
    requires q.Valid()
  {
    if CanAlign(q, m) then
      var p :| Good(q, m, p);
      Attempt(p, true)
    else Attempt(AnyPlacement(q.plat, m, q.Size()), true)
  }

  /** For buffers of any size: some honest kernel lets the search succeed iff the buffer could be
      aligned. */
  lemma PossibleExactly(q: Request, m: Mapping)
    requires q.Valid() && ValidMapping(q.plat, m)
    ensures (exists r :: HonestFor(q, m, r) && Succeeds(r, m)) <==> CanAlign(q, m)
  {
    var n := FitsOf(q);
    hide SearchFrom, Honest, Request.Valid, ValidMapping, CanAlign, Free;
    if r :| HonestFor(q, m, r) && Succeeds(r, m) {
      SuccessNeedsPlacement(r, m, [], None);
      SameMachine(q, r, m);
    }
    if CanAlign(q, m) {
      var r := HelpfulSucceeds(q, m, |Free(q.plat, m)| + 1);
      assert HonestFor(q, m, r);
    }
  }

  lemma HelpfulSucceeds(q: Request, m: Mapping, maxTries: nat) returns (r: Request)
    requires q.Valid() && ValidMapping(q.plat, m) && CanAlign(q, m) && maxTries >= 1
    ensures r.plat == q.plat && r.info == q.info && r.maxTries == maxTries && r.Valid() && Honest(r)
    ensures SearchFrom(r, m, [], None).err == ErrNone
  {
    var n := FitsOf(q);
    r := Request(q.plat, q.info, (m: Mapping, t: nat) => Helpful(q, m), maxTries);
    RequestValid(r);
    hide Feasible, Request.Valid, Usable, Fits, Test, Address, MapRegion, ValidMapping, Good, CanAlign, Helpful;
    forall m: Mapping { HelpfulAnswer(q, m); }
    SameMachine(q, r, m);
    GoodAtOnce(r, m);
  }

  lemma HelpfulAnswer(q: Request, m: Mapping)
    requires q.Valid()
    ensures Helpful(q, m).readable
    ensures CanAlign(q, m) ==> Good(q, m, Helpful(q, m).placement)
    ensures CanPlace(q, m) ==> Feasible(q.plat, m, Helpful(q, m).placement, q.Size())
  {
    hide Feasible, Usable, Fits, Address, MapRegion;
  }

  lemma GoodAtOnce(r: Request, m: Mapping)
    requires r.Valid() && ValidMapping(r.plat, m) && r.maxTries >= 1
    requires r.policy(m, 0).readable && Good(r, m, r.policy(m, 0).placement)
    ensures SearchFrom(r, m, [], None).err == ErrNone
  {
    hide Feasible, Usable, Fits, Test, Address, MapRegion, ValidMapping;
    GoodTest(r, m, r.policy(m, 0).placement);
  }
}
