/** Concrete machines: the returned code can be wrong, and a buffer of two hugepages that could be
    aligned is not found. */
module AllocExamples {
  import opened Words
  import opened Errors
  import opened Geometry
  import opened SysInfo
  import opened Alignment
  import opened Alloc
  import opened AllocContract
  import opened AllocSizes

  // ---------- a wrong answer ----------

  /** A 20-way cache of 1.25 MiB with 64-byte lines, and a pool of one 2 MiB hugepage: frame 1. */
  function UnluckyRequest(): Request {
    Request(Platform(4096, 2097152, {1}), CacheInfo(64, 1310720, 1024, 20),
            (m: Mapping, t: nat) => Attempt(Placement(1024, [1]), true), 1)
  }

  lemma UnluckyGeometry()
    ensures UnluckyRequest().info.Valid()
  {
    hide Product;
    ProductIsTimes(1024, 20);
    ProductIsTimes(64, 20480);
  }

  lemma UnluckyPlatform()
    ensures UnluckyRequest().plat.Valid()
  {
    PageIsPow2();
    hide IsPow2;
  }

  lemma PageIsPow2()
    ensures IsPow2(4096)
  {
    Log2Pow2(12);
    hide Log2;
    assert Pow2(3) == 8;
    assert Pow2(6) == 64;
    assert Pow2(9) == 512;
    assert Pow2(12) == 4096;
  }

  lemma UnluckyValid()
    ensures UnluckyRequest().Valid() && UnluckyRequest().Size() == 1
    ensures Feasible(UnluckyRequest().plat, map[], Placement(1024, [1]), 1)
    ensures !FrameAligned(UnluckyRequest(), 1)
  {
    UnluckyGeometry();
    UnluckyPlatform();
    hide CacheInfo.Valid, Platform.Valid;
    RequestValid(UnluckyRequest());
  }

  lemma RejectStep(q: Request, m: Mapping, rejected: seq<Word>, last: Option<Word>, p: Placement)
    requires q.Valid() && |rejected| < q.maxTries && q.policy(m, |rejected|) == Attempt(p, true)
    requires Feasible(q.plat, m, p, q.Size())
    requires Test(q, MapRegion(m, p), true, Address(q.plat, q.info, m, p)) == ErrNotAligned
    ensures var b := Address(q.plat, q.info, m, p);
      SearchFrom(q, m, rejected, last) == SearchFrom(q, MapRegion(m, p), rejected + [b], Some(b))
  {
    hide Test, Feasible, MapRegion, Address, Request.Valid;
  }

  lemma Exhausted(q: Request, m: Mapping, rejected: seq<Word>, last: Option<Word>)
    requires q.Valid() && |rejected| == q.maxTries
    ensures SearchFrom(q, m, rejected, last) == Search(m, rejected, last, ErrNotAligned)
  {
  }

  lemma MisalignedTest(q: Request, m: Mapping, p: Placement)
    requires q.Valid() && q.Size() == 1 && ValidMapping(q.plat, m) && Feasible(q.plat, m, p, 1)
    requires !FrameAligned(q, p.frames[0])
    ensures Test(q, MapRegion(m, p), true, Address(q.plat, q.info, m, p)) == ErrNotAligned
  {
    TakesOneFrame(q, m, p);
    hide Usable, FrameAligned, Feasible, Test, Address, MapRegion, Free, ValidMapping, Fits;
    TestExact(q, m, true, p);
    OneHugepage(q, MapRegion(m, p), Address(q.plat, q.info, m, p));
  }

  /** One try, and it is rejected. */
  lemma OnlyTryRejected(q: Request, m0: Mapping, p: Placement)
    requires q.Valid() && q.Size() == 1 && q.maxTries == 1 && ValidMapping(q.plat, m0)
    requires Feasible(q.plat, m0, p, 1) && !FrameAligned(q, p.frames[0]) && q.policy(m0, 0) == Attempt(p, true)
    ensures var o := AllocOutcome(q, SearchFrom(q, m0, [], None));
      o.err == ErrNone && !Usable(q, o.mapped, o.buffer)
  {
    hide Usable, FrameAligned, Feasible, Test, Address, MapRegion, Free, Release, RemoveAll, SearchFrom, ValidMapping,
         Fits;
    MisalignedTest(q, m0, p);
    RejectStep(q, m0, [], None, p);
    Exhausted(q, MapRegion(m0, p), [] + [Address(q.plat, q.info, m0, p)], Some(Address(q.plat, q.info, m0, p)));
    NotUsableWhenReleased(q, m0);
  }

  /** The only hugepage is rejected, and alloc_aligned still returns ERROR_NONE with no buffer. */
  lemma FalseSuccess()
    ensures UnluckyRequest().Valid()
    ensures var q := UnluckyRequest(); var o := AllocOutcome(q, SearchFrom(q, map[], [], None));
      o.err == ErrNone && !Usable(q, o.mapped, o.buffer) && !Truthful(q, o)
  {
    UnluckyValid();
    var q := UnluckyRequest();
    hide Usable, FrameAligned, Feasible, SearchFrom, AllocOutcome, Request.Valid;
    OnlyTryRejected(q, map[], Placement(1024, [1]));
  }

  // ---------- two hugepages ----------

  /** A 16-way cache of 4 MiB needs two 2 MiB hugepages; the pool holds the frames 0 and 1. */
  ghost function TwoPageRequest(): Request {
    Shuffling(Platform(4096, 2097152, {0, 1}), CacheInfo(64, 4194304, 4096, 16), 2, 2)
  }

  lemma TwoPageGeometry()
    ensures TwoPageRequest().info.Valid()
  {
    hide Product;
    ProductIsTimes(4096, 16);
    ProductIsTimes(64, 65536);
  }

  lemma TwoPagePlatform()
    ensures TwoPageRequest().plat.Valid()
  {
    PageIsPow2();
    hide IsPow2;
  }

  lemma TwoPageValid()
    ensures TwoPageRequest().Valid() && TwoPageRequest().Size() == 2 && Honest(TwoPageRequest())
    ensures TwoPageRequest().info.Lines() == 65536 && TwoPageRequest().plat.hugeSize / 64 == 32768
    ensures Feasible(TwoPageRequest().plat, map[], Placement(1024, [0, 1]), 2)
  {
    TwoPageGeometry();
    TwoPagePlatform();
    ValidSizes(TwoPageRequest().info);
    hide CacheInfo.Valid, Platform.Valid, CacheInfo.Lines, ShuffledPlacement, Honest;
    ShufflingHonest(TwoPageRequest().plat, TwoPageRequest().info, 2);
  }

  /** In the right order, the two frames make a usable buffer. */
  lemma RightOrder(q: Request, m: Mapping, b: Word)
    requires q.Valid() && Backed(q.plat, m, b, q.Size()) && q.Size() == 2
    requires q.info.Lines() == 2 * (q.plat.hugeSize / q.info.lineSize)
    requires b / q.plat.hugeSize in m && m[b / q.plat.hugeSize] == 0
    requires b / q.plat.hugeSize + 1 in m && m[b / q.plat.hugeSize + 1] == 1
    ensures Usable(q, m, Some(b))
  {
    var r: nat := q.plat.hugeSize / q.info.lineSize;
    hide LineId, Phys, Platform.Valid, CacheInfo.Valid, CacheInfo.Lines;
    forall i | 0 <= i < q.info.Lines() ensures LineId(Phys(q.plat, m), b, q.info, i) == i {
      if i < r {
        PageInOrder(q, m, b, r, 0, i, i);
      } else {
        PageInOrder(q, m, b, r, 1, i - r, i);
      }
    }
  }

  lemma PageInOrder(q: Request, m: Mapping, b: Word, r: nat, j: nat, d: nat, i: nat)
    requires q.Valid() && b % q.plat.hugeSize == 0 && r == q.plat.hugeSize / q.info.lineSize
    requires d < r && i == (if j == 0 then d else r + d) < q.info.Lines()
    requires j <= 1 && b / q.plat.hugeSize + j in m && m[b / q.plat.hugeSize + j] == j
    ensures LineId(Phys(q.plat, m), b, q.info, i) == i
  {
    hide LineId, Phys, Platform.Valid, CacheInfo.Valid, CacheInfo.Lines;
    LineIdInHugepage(q.plat, m, q.info, b, j, d);
    assert i == j * r + d;
    DivModUnique(0, i, q.info.Lines());
  }

  /** An instance of CompleteExactly: an aligned placement exists and the kernel is honest, but the first
      try takes both frames in the wrong order, and with the pool empty the search fails. */
  lemma TwoPagesIncomplete()
    ensures TwoPageRequest().Valid() && TwoPageRequest().Size() == 2 && Honest(TwoPageRequest())
    ensures var q := TwoPageRequest();
      && Good(q, map[], Placement(1024, [0, 1])) && |Free(q.plat, map[])| <= q.maxTries
      && SearchFrom(q, map[], [], None).err == ErrMmap
      && Free(q.plat, SearchFrom(q, map[], [], None).mapped) == {}
  {
    TwoPageValid();
    assert Free(TwoPageRequest().plat, map[]) == {0, 1};
    hide Good, Honest, Free, SearchFrom, ShuffledPlacement, Request.Valid, Feasible;
    RightIsGood(TwoPageRequest());
    WrongIsRejected(TwoPageRequest());
  }

  lemma RightIsGood(q: Request)
    requires q == TwoPageRequest() && q.Valid() && q.Size() == 2 && q.info.Lines() == 65536
    requires q.plat.hugeSize / 64 == 32768 && Feasible(q.plat, map[], Placement(1024, [0, 1]), 2)
    ensures Good(q, map[], Placement(1024, [0, 1]))
  {
    hide Usable, CacheInfo.Valid, Platform.Valid, Fits, Product, CacheInfo.Lines, ShuffledPlacement;
    var right := Placement(1024, [0, 1]);
    var m, b := MapRegion(map[], right), Address(q.plat, q.info, map[], right);
    assert 1024 in Region(right) && 1025 in Region(right);
    RightOrder(q, m, b);
  }

  lemma PoolEmpty(plat: Platform, p: Placement)
    requires plat.pool == {0, 1} && Feasible(plat, map[], p, 2)
    ensures Free(plat, MapRegion(map[], p)) == {}
  {
    var m := MapRegion(map[], p);
    assert p.base in Region(p) && p.base + 1 in Region(p);
    assert m[p.base] == p.frames[0] && m[p.base + 1] == p.frames[1];
    assert p.frames[0] in plat.pool && p.frames[1] in plat.pool;
    assert m.Values >= {0, 1};
  }

  lemma NothingFits(plat: Platform, m: Mapping, p: Placement)
    requires Free(plat, m) == {}
    ensures !Feasible(plat, m, p, 2)
  {
    hide Free;
    assert |p.frames| == 2 ==> p.frames[0] !in Free(plat, m);
  }

  lemma WrongIsRejected(q: Request)
    requires q == TwoPageRequest() && q.Valid() && q.Size() == 2
    requires Feasible(q.plat, map[], Placement(1024, [0, 1]), 2)
    ensures SearchFrom(q, map[], [], None).err == ErrMmap
    ensures Free(q.plat, SearchFrom(q, map[], [], None).mapped) == {}
  {
    hide Fits, Test, Address, ShuffledPlacement, Good, Feasible, MapRegion, Free, Honest;
    var p := ShuffledPlacement(q.plat, q.info, map[], 2);
    ShuffledFeasible(q.plat, q.info, map[], 2);
    ShuffledRejected(q, map[]);
    GoodTest(q, map[], p);
    RejectStep(q, map[], [], None, p);
    PoolEmpty(q.plat, p);
    var m := MapRegion(map[], p);
    NothingFits(q.plat, m, ShuffledPlacement(q.plat, q.info, m, 2));
  }
}
