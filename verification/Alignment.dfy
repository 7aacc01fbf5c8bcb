/** Hugepage memory as the kernel maps it, and the sampling test of test_alignment. */
module Alignment {
  import opened Words
  import opened Errors
  import opened Geometry
  import opened SysInfo

  // ---------- the kernel's memory ----------

  /** Sizes of a base page and a hugepage, and the physical hugepages this process can be given. */
  datatype Platform = Platform(pageSize: Word, hugeSize: Word, pool: set<nat>) {
    ghost predicate Valid() {
      && PAGE_ENTRY_SIZE <= pageSize && IsPow2(pageSize)
      && hugeSize >= 1 && hugeSize % pageSize == 0
      && forall f :: f in pool ==> (f + 1) * hugeSize <= TWO_TO_54
    }
  }

  /** Which physical hugepage backs each virtual hugepage. */
  type Mapping = map<nat, nat>

  ghost predicate ValidMapping(plat: Platform, m: Mapping) {
    forall v :: v in m ==> m[v] in plat.pool && (v + 1) * plat.hugeSize <= TWO_TO_64
  }

  function Free(plat: Platform, m: Mapping): set<nat> {
    plat.pool - m.Values
  }

  /** Physical address of a byte; an unmapped byte has none and reads as 0. */
  function Phys(plat: Platform, m: Mapping): Translation
    requires plat.hugeSize >= 1
  {
    (addr: nat) =>
      if addr / plat.hugeSize in m then m[addr / plat.hugeSize] * plat.hugeSize + addr % plat.hugeSize
      else 0
  }

  /** The pagemap entry of a base page: the frames inside a hugepage are consecutive. */
  function EntryAt(plat: Platform, m: Mapping, page: nat): Word
    requires plat.pageSize >= 1 && plat.hugeSize / plat.pageSize >= 1
  {
    var ratio := plat.hugeSize / plat.pageSize;
    if page / ratio !in m then 0
    else
      var frame := m[page / ratio] * ratio + page % ratio;
      if frame < TWO_TO_54 then EncodeEntry(frame, true) else 0
  }

  function PagemapOf(plat: Platform, m: Mapping, readable: bool): Pagemap
    requires plat.pageSize >= 1 && plat.hugeSize / plat.pageSize >= 1
  {
    (offset: nat) => if readable then Some(EntryAt(plat, m, offset / PAGE_ENTRY_SIZE)) else None
  }

  lemma HugeRatio(plat: Platform)
    requires plat.Valid()
    ensures plat.hugeSize / plat.pageSize >= 1
    ensures (plat.hugeSize / plat.pageSize) * plat.pageSize == plat.hugeSize
  {
    DivModBounds(plat.hugeSize, plat.pageSize);
  }

  /** Splitting an address into hugepage, base page inside it, and byte. */
  lemma SplitAddress(addr: nat, page: nat, ratio: nat)
    requires page >= 1 && ratio >= 1
    ensures ratio * page >= 1
    ensures (addr / page) / ratio == addr / (ratio * page)
    ensures ((addr / page) % ratio) * page + addr % page == addr % (ratio * page)
  {
    var vp := addr / page;
    var q, k, b := vp / ratio, vp % ratio, addr % page;
    DivModBounds(addr, page);
    DivModBounds(vp, ratio);
    MulMono(k + 1, ratio, page);
    assert (k + 1) * page == k * page + page;
    MulMono(1, ratio, page);
    assert (q * ratio + k) * page == q * (ratio * page) + k * page;
    DivModUnique(q, k * page + b, ratio * page);
  }

  /** Reading the pagemap gives the physical address at every byte of a mapped hugepage. */
  lemma TranslateMapped(plat: Platform, m: Mapping, addr: Word)
    requires plat.Valid() && ValidMapping(plat, m) && addr / plat.hugeSize in m
    ensures plat.hugeSize / plat.pageSize >= 1
    ensures Translate(PagemapOf(plat, m, true), plat.pageSize, addr) == Ok(Phys(plat, m)(addr))
  {
    HugeRatio(plat);
    var p, r := plat.pageSize, plat.hugeSize / plat.pageSize;
    SplitAddress(addr, p, r);
    var f, k := m[addr / plat.hugeSize], (addr / p) % r;
    var frame := f * r + k;
    FrameBounds(f, r, k, p);
    assert (f + 1) * plat.hugeSize <= TWO_TO_54;
    OffsetOfPage(addr, p);
    assert EntryAt(plat, m, addr / p) == EncodeEntry(frame, true);
    EntryRoundTrip(frame, true);
    TranslateExact(PagemapOf(plat, m, true), p, addr, frame);
  }

  /** Inside a hugepage, translation is additive. */
  lemma TranslateAdditive(plat: Platform, m: Mapping, addr: Word, d: nat)
    requires plat.Valid() && ValidMapping(plat, m) && addr / plat.hugeSize in m
    requires addr % plat.hugeSize + d < plat.hugeSize
    ensures plat.hugeSize / plat.pageSize >= 1 && addr + d < TWO_TO_64
    ensures var r := Translate(PagemapOf(plat, m, true), plat.pageSize, addr);
      r.Ok? && Translate(PagemapOf(plat, m, true), plat.pageSize, addr + d) == Ok(r.value + d)
  {
    hide Translate, PagemapOf;
    var H := plat.hugeSize;
    DivModBounds(addr, H);
    MulStep(addr / H, H);
    DivModUnique(addr / H, addr % H + d, H);
    TranslateMapped(plat, m, addr);
    TranslateMapped(plat, m, addr + d);
  }

  lemma FrameBounds(f: nat, r: nat, k: nat, p: nat)
    requires k < r && p >= 1 && (f + 1) * (r * p) <= TWO_TO_54
    ensures f * r + k < TWO_TO_54 && (f * r + k + 1) * p <= TWO_TO_54
    ensures (f * r + k) * p == f * (r * p) + k * p
  {
    Distribute(f, r, k, p);
    Distribute(f, r, k + 1, p);
    MulMono(k + 1, r, p);
    MulStep(f, r * p);
    MulStep(k, p);
    MulMono(1, p, f * r + k + 1);
  }

  lemma OffsetOfPage(addr: Word, p: Word)
    requires p >= PAGE_ENTRY_SIZE
    ensures EntryOffset(p, addr) == (addr / p) * PAGE_ENTRY_SIZE
    ensures EntryOffset(p, addr) / PAGE_ENTRY_SIZE == addr / p
  {
    hide MulW;
    PageFits(addr, p);
  }

  lemma PageFits(addr: nat, p: nat)
    requires p >= PAGE_ENTRY_SIZE
    ensures (addr / p) * PAGE_ENTRY_SIZE <= addr
  {
    DivModBounds(addr, p);
    MulMono(PAGE_ENTRY_SIZE, p, addr / p);
  }

  // ---------- test_alignment ----------

  /** Geometry of the request: the line size divides the hugepage size. */
  ghost predicate Fits(plat: Platform, info: CacheInfo) {
    plat.Valid() && info.Valid() && plat.hugeSize % info.lineSize == 0
  }

  /** Hugepages needed for the buffer. */
  function Needed(plat: Platform, info: CacheInfo): nat
    requires plat.hugeSize >= 1
  {
    (info.totalSize + plat.hugeSize - 1) / plat.hugeSize
  }

  function TestLine(pagemap: Pagemap, pageSize: Word, buffer: Word, info: CacheInfo, line: nat): Error
    requires info.lineSize >= 1 && info.totalSize >= 1 && line * info.lineSize < TWO_TO_64
  {
    match Translate(pagemap, pageSize, AddW(buffer, line * info.lineSize))
    case Err(e) => e
    case Ok(physical) =>
      if line == (physical % info.totalSize) / info.lineSize then ErrNone else ErrNotAligned
  }

  /** Verdict of the sampling loop from a given line on: the first sample that is not in place or
      cannot be translated decides. */
  function TestFrom(pagemap: Pagemap, pageSize: Word, hugeSize: Word, buffer: Word, info: CacheInfo, line: nat): Error
    requires info.Valid() && hugeSize / info.lineSize >= 1
    decreases info.Lines() - line
  {
    if line >= info.Lines() then ErrNone
    else
      LineInside(info, line);
      var e := TestLine(pagemap, pageSize, buffer, info, line);
      if e != ErrNone then e
      else TestFrom(pagemap, pageSize, hugeSize, buffer, info, line + hugeSize / info.lineSize)
  }

  lemma LineInside(info: CacheInfo, line: nat)
    requires info.Valid() && line < info.Lines()
    ensures line * info.lineSize + info.lineSize <= info.totalSize
    ensures info.totalSize >= 1 && info.totalSize < TWO_TO_32
  {
    ValidSizes(info);
    ValidBounds(info);
    MulMono(line + 1, info.Lines(), info.lineSize);
  }

  method TestAlignment(pagemap: Pagemap, pageSize: Word, hugeSize: Word, buffer: Word, info: CacheInfo)
    returns (err: Error)
    requires info.Valid() && hugeSize / info.lineSize >= 1
    ensures err == TestFrom(pagemap, pageSize, hugeSize, buffer, info, 0)
  {
    hide Translate, TestLine, CacheInfo.Valid;
    LineCount(info);
    ValidBounds(info);
    var currentLine := 0;
    while currentLine < info.totalSize / info.lineSize
      invariant TestFrom(pagemap, pageSize, hugeSize, buffer, info, currentLine)
             == TestFrom(pagemap, pageSize, hugeSize, buffer, info, 0)
      decreases info.Lines() - currentLine
    {
      LineInside(info, currentLine);
      var ptr := AddW(buffer, currentLine * info.lineSize);
      var physical := GetPhysicalAddress(pagemap, pageSize, ptr);
      ghost var verdict := TestLine(pagemap, pageSize, buffer, info, currentLine);
      TestLineCases(pagemap, pageSize, buffer, info, currentLine);
      if physical.Err? { return physical.error; }
      var lineId := (physical.value % info.totalSize) / info.lineSize;
      if currentLine != lineId { return ErrNotAligned; }
      currentLine := currentLine + hugeSize / info.lineSize;
    }
    return ErrNone;
  }

  lemma TestLineCases(pagemap: Pagemap, pageSize: Word, buffer: Word, info: CacheInfo, line: nat)
    requires info.lineSize >= 1 && info.totalSize >= 1 && line * info.lineSize < TWO_TO_64
    ensures var e := TestLine(pagemap, pageSize, buffer, info, line);
      match Translate(pagemap, pageSize, AddW(buffer, line * info.lineSize))
      case Err(f) => e == f && e != ErrNone
      case Ok(physical) => e == if line == (physical % info.totalSize) / info.lineSize then ErrNone else ErrNotAligned
  {
  }

  /** The line of sample j. */
  function SampleLine(start: nat, step: nat, j: nat): nat
    decreases j
  {
    if j == 0 then start else SampleLine(start + step, step, j - 1)
  }

  lemma {:induction false} SampleLineIs(start: nat, step: nat, j: nat)
    ensures SampleLine(start, step, j) == start + j * step
    decreases j
  {
    if j > 0 {
      SampleLineIs(start + step, step, j - 1);
      MulStep(j - 1, step);
    }
  }

  ghost predicate Passes(pagemap: Pagemap, pageSize: Word, buffer: Word, info: CacheInfo, line: nat)
    requires info.lineSize >= 1 && info.totalSize >= 1
  {
    line * info.lineSize < TWO_TO_64 && TestLine(pagemap, pageSize, buffer, info, line) == ErrNone
  }

  ghost predicate PassesAt(pagemap: Pagemap, pageSize: Word, buffer: Word, info: CacheInfo, start: nat, step: nat,
                           j: nat)
    requires info.lineSize >= 1 && info.totalSize >= 1
  {
    SampleLine(start, step, j) < info.Lines() && Passes(pagemap, pageSize, buffer, info, SampleLine(start, step, j))
  }

  lemma FirstStep(pagemap: Pagemap, pageSize: Word, hugeSize: Word, buffer: Word, info: CacheInfo, line: nat)
    requires info.Valid() && hugeSize / info.lineSize >= 1 && info.totalSize >= 1 && line < info.Lines()
    ensures line * info.lineSize < TWO_TO_64
    ensures TestFrom(pagemap, pageSize, hugeSize, buffer, info, line)
         == if Passes(pagemap, pageSize, buffer, info, line)
            then TestFrom(pagemap, pageSize, hugeSize, buffer, info, line + hugeSize / info.lineSize)
            else TestLine(pagemap, pageSize, buffer, info, line)
  {
    hide TestLine, CacheInfo.Valid, CacheInfo.Lines;
    LineInside(info, line);
  }

  /** The verdict is that of the first sample that fails, and ERROR_NONE when none does. */
  lemma {:induction false} FirstFailure(pagemap: Pagemap, pageSize: Word, hugeSize: Word, buffer: Word,
                                        info: CacheInfo, start: nat, failing: nat)
    requires info.Valid() && hugeSize / info.lineSize >= 1 && info.totalSize >= 1
    requires forall j: nat :: j < failing ==>
      PassesAt(pagemap, pageSize, buffer, info, start, hugeSize / info.lineSize, j)
    ensures var line := SampleLine(start, hugeSize / info.lineSize, failing);
      && (line >= info.Lines() ==> TestFrom(pagemap, pageSize, hugeSize, buffer, info, start) == ErrNone)
      && (line < info.Lines() && !Passes(pagemap, pageSize, buffer, info, line) ==>
            line * info.lineSize < TWO_TO_64
            && TestFrom(pagemap, pageSize, hugeSize, buffer, info, start)
               == TestLine(pagemap, pageSize, buffer, info, line))
    decreases failing
  {
    assert info.lineSize >= 1;
    hide TestLine, CacheInfo.Valid, CacheInfo.Lines, Passes;
    var r: nat := hugeSize / info.lineSize;
    assert SampleLine(start, r, 0) == start;
    if failing > 0 {
      assert PassesAt(pagemap, pageSize, buffer, info, start, r, 0);
      var next := start + r;
      forall j: nat | j < failing - 1 ensures PassesAt(pagemap, pageSize, buffer, info, next, r, j) {
        assert PassesAt(pagemap, pageSize, buffer, info, start, r, j + 1);
        assert SampleLine(start, r, j + 1) == SampleLine(next, r, j);
      }
      FirstStep(pagemap, pageSize, hugeSize, buffer, info, start);
      FirstFailure(pagemap, pageSize, hugeSize, buffer, info, next, failing - 1);
      assert SampleLine(start, r, failing) == SampleLine(next, r, failing - 1);
    } else if start < info.Lines() {
      FirstStep(pagemap, pageSize, hugeSize, buffer, info, start);
    }
  }

  /** A buffer that starts at a hugepage and whose hugepages are all mapped. */
  ghost predicate Backed(plat: Platform, m: Mapping, buffer: Word, n: nat)
    requires plat.hugeSize >= 1
  {
    buffer % plat.hugeSize == 0 && forall v :: buffer / plat.hugeSize <= v < buffer / plat.hugeSize + n ==> v in m
  }

  /** Where line i of the buffer is: hugepage j, and line d inside it. */
  lemma LineInHugepage(plat: Platform, info: CacheInfo, buffer: Word, j: nat, d: nat)
    requires Fits(plat, info) && buffer % plat.hugeSize == 0
    requires d < plat.hugeSize / info.lineSize
    ensures var i := j * (plat.hugeSize / info.lineSize) + d;
      var addr := buffer + i * info.lineSize;
      && addr / plat.hugeSize == buffer / plat.hugeSize + j
      && addr % plat.hugeSize == d * info.lineSize
  {
    DivModBounds(plat.hugeSize, info.lineSize);
    HugeOffset(buffer, plat.hugeSize, info.lineSize, plat.hugeSize / info.lineSize, j, d);
  }

  lemma HugeOffset(buffer: nat, huge: nat, line: nat, r: nat, j: nat, d: nat)
    requires huge >= 1 && line >= 1 && r * line == huge && buffer % huge == 0 && d < r
    ensures (buffer + (j * r + d) * line) / huge == buffer / huge + j
    ensures (buffer + (j * r + d) * line) % huge == d * line
  {
    DivModBounds(buffer, huge);
    MulMono(d + 1, r, line);
    MulStep(d, line);
    Distribute(j, r, d, line);
    var q := buffer / huge;
    assert (q + j) * huge == q * huge + j * huge;
    DivModUnique(q + j, d * line, huge);
  }

  lemma HugepageInBuffer(plat: Platform, info: CacheInfo, j: nat)
    requires Fits(plat, info) && j * (plat.hugeSize / info.lineSize) < info.Lines()
    ensures j < Needed(plat, info)
  {
    var L, H := info.lineSize, plat.hugeSize;
    DivModBounds(H, L);
    ValidSizes(info);
    LineInside(info, j * (H / L));
    assert (j * (H / L)) * L == j * H;
    var n := Needed(plat, info);
    DivModBounds(info.totalSize + H - 1, H);
    if n <= j {
      MulMono(n, j, H);
    }
  }

  /** Cache line number of line d of hugepage j: the hugepage's frame fixes it. */
  lemma LineIdInHugepage(plat: Platform, m: Mapping, info: CacheInfo, buffer: Word, j: nat, d: nat)
    requires Fits(plat, info) && buffer % plat.hugeSize == 0
    requires d < plat.hugeSize / info.lineSize && buffer / plat.hugeSize + j in m
    ensures info.totalSize >= 1 && info.Lines() >= 1
    ensures var r := plat.hugeSize / info.lineSize;
      LineId(Phys(plat, m), buffer, info, j * r + d) == (m[buffer / plat.hugeSize + j] * r + d) % info.Lines()
  {
    var line, f := info.lineSize, m[buffer / plat.hugeSize + j];
    var r := plat.hugeSize / line;
    ValidBounds(info);
    ValidSizes(info);
    DivModBounds(plat.hugeSize, line);
    LineInHugepage(plat, info, buffer, j, d);
    Distribute(f, r, d, line);
    LineNumber(f * r + d, line, info.Lines());
  }

  /** The number of the first physical line of a hugepage frame. */
  function FirstLineOf(plat: Platform, info: CacheInfo, f: nat): nat
    requires info.lineSize >= 1
  {
    f * (plat.hugeSize / info.lineSize)
  }

  lemma LineIdAt(plat: Platform, m: Mapping, info: CacheInfo, buffer: Word, j: nat, c: nat, d: nat)
    requires Fits(plat, info) && buffer % plat.hugeSize == 0
    requires d < plat.hugeSize / info.lineSize && buffer / plat.hugeSize + j in m
    requires c == j * (plat.hugeSize / info.lineSize)
    ensures info.totalSize >= 1 && info.Lines() >= 1
    ensures LineId(Phys(plat, m), buffer, info, c + d)
         == (FirstLineOf(plat, info, m[buffer / plat.hugeSize + j]) + d) % info.Lines()
  {
    hide LineId, Phys, CacheInfo.Lines;
    LineIdInHugepage(plat, m, info, buffer, j, d);
  }

  lemma LineNumber(x: nat, line: nat, count: nat)
    requires line >= 1 && count >= 1
    ensures line * count >= 1 && ((x * line) % (line * count)) / line == x % count
  {
    LineOfRemainder(x * line, line, count);
    DivModUnique(x, 0, line);
  }

  /** One sample speaks for its whole hugepage. */
  lemma SampleCovers(plat: Platform, m: Mapping, info: CacheInfo, buffer: Word, j: nat, c: nat, d: nat)
    requires Fits(plat, info) && Backed(plat, m, buffer, Needed(plat, info))
    requires c == j * (plat.hugeSize / info.lineSize)
    requires d < plat.hugeSize / info.lineSize && c + d < info.Lines()
    requires info.totalSize >= 1 && LineId(Phys(plat, m), buffer, info, c) == c
    ensures LineId(Phys(plat, m), buffer, info, c + d) == c + d
  {
    HugepageInBuffer(plat, info, j);
    var f := m[buffer / plat.hugeSize + j];
    hide Platform.Valid, CacheInfo.Valid, CacheInfo.Lines, Phys, LineId, Backed;
    LineIdAt(plat, m, info, buffer, j, c, 0);
    LineIdAt(plat, m, info, buffer, j, c, d);
    hide FirstLineOf;
    RemainderStep(FirstLineOf(plat, info, f), c, d, info.Lines());
  }

  lemma RemainderStep(x: nat, c: nat, d: nat, n: nat)
    requires n >= 1 && x % n == c && c + d < n
    ensures (x + d) % n == c + d
  {
    DivModBounds(x, n);
    DivModUnique(x / n, c + d, n);
  }

  lemma AddressFits(plat: Platform, m: Mapping, buffer: Word, n: nat, offset: nat)
    requires plat.hugeSize >= 1 && ValidMapping(plat, m) && Backed(plat, m, buffer, n)
    requires (buffer + offset) / plat.hugeSize < buffer / plat.hugeSize + n
    ensures (buffer + offset) / plat.hugeSize in m && buffer + offset < TWO_TO_64
  {
    var H := plat.hugeSize;
    var v := (buffer + offset) / H;
    DivModBounds(buffer + offset, H);
    DivModBounds(buffer, H);
    if v < buffer / H {
      MulMono(v + 1, buffer / H, H);
    }
    assert (v + 1) * H == v * H + H;
  }

  /** On a mapped buffer, one test asks exactly whether its line is in place. */
  lemma TestLineMapped(plat: Platform, m: Mapping, info: CacheInfo, buffer: Word, j: nat, c: nat)
    requires Fits(plat, info) && ValidMapping(plat, m) && Backed(plat, m, buffer, Needed(plat, info))
    requires plat.hugeSize / plat.pageSize >= 1 && info.totalSize >= 1
    requires c == j * (plat.hugeSize / info.lineSize) && c < info.Lines() && c * info.lineSize < TWO_TO_64
    ensures TestLine(PagemapOf(plat, m, true), plat.pageSize, buffer, info, c)
         == if LineId(Phys(plat, m), buffer, info, c) == c then ErrNone else ErrNotAligned
  {
    hide Translate, PagemapOf, Phys;
    HugeLines(plat, info);
    HugepageInBuffer(plat, info, j);
    LineInHugepage(plat, info, buffer, j, 0);
    AddressFits(plat, m, buffer, Needed(plat, info), c * info.lineSize);
    TranslateMapped(plat, m, buffer + c * info.lineSize);
  }

  lemma HugeLines(plat: Platform, info: CacheInfo)
    requires Fits(plat, info)
    ensures plat.hugeSize / info.lineSize >= 1
  {
    DivModBounds(plat.hugeSize, info.lineSize);
  }

  ghost predicate InPlaceFrom(phys: Translation, buffer: nat, info: CacheInfo, c: nat)
    requires info.lineSize >= 1 && info.totalSize >= 1
  {
    forall i :: c <= i < info.Lines() ==> LineId(phys, buffer, info, i) == i
  }

  lemma InPlaceFromEnd(phys: Translation, buffer: nat, info: CacheInfo, c: nat)
    requires info.lineSize >= 1 && info.totalSize >= 1
    ensures c >= info.Lines() ==> InPlaceFrom(phys, buffer, info, c)
    ensures c < info.Lines() && LineId(phys, buffer, info, c) != c ==> !InPlaceFrom(phys, buffer, info, c)
  {
  }

  lemma SampleCoversAll(plat: Platform, m: Mapping, info: CacheInfo, buffer: Word, j: nat, c: nat)
    requires Fits(plat, info) && Backed(plat, m, buffer, Needed(plat, info))
    requires info.totalSize >= 1 && c == j * (plat.hugeSize / info.lineSize) && c < info.Lines()
    requires LineId(Phys(plat, m), buffer, info, c) == c
    ensures InPlaceFrom(Phys(plat, m), buffer, info, c)
       <==> InPlaceFrom(Phys(plat, m), buffer, info, c + plat.hugeSize / info.lineSize)
  {
    hide LineId, Phys, Backed, Platform.Valid, CacheInfo.Valid, CacheInfo.Lines;
    ValidBounds(info);
    var r := plat.hugeSize / info.lineSize;
    forall i | c <= i < c + r && i < info.Lines() ensures LineId(Phys(plat, m), buffer, info, i) == i {
      SampleCovers(plat, m, info, buffer, j, c, i - c);
    }
  }

  lemma {:induction false} TestFromExact(plat: Platform, m: Mapping, info: CacheInfo, buffer: Word, j: nat, c: nat)
    requires Fits(plat, info) && ValidMapping(plat, m) && Backed(plat, m, buffer, Needed(plat, info))
    requires plat.hugeSize / plat.pageSize >= 1 && plat.hugeSize / info.lineSize >= 1 && info.totalSize >= 1
    requires c == j * (plat.hugeSize / info.lineSize)
    ensures TestFrom(PagemapOf(plat, m, true), plat.pageSize, plat.hugeSize, buffer, info, c)
         == if InPlaceFrom(Phys(plat, m), buffer, info, c) then ErrNone else ErrNotAligned
    decreases info.Lines() - c
  {
    hide LineId, PagemapOf, Phys, TestLine, Backed, ValidMapping, InPlaceFrom, Platform.Valid, CacheInfo.Valid,
         CacheInfo.Lines;
    ValidBounds(info);
    InPlaceFromEnd(Phys(plat, m), buffer, info, c);
    var r := plat.hugeSize / info.lineSize;
    if c < info.Lines() {
      LineInside(info, c);
      TestLineMapped(plat, m, info, buffer, j, c);
      MulStep(j, r);
      TestFromExact(plat, m, info, buffer, j + 1, c + r);
      if LineId(Phys(plat, m), buffer, info, c) == c {
        SampleCoversAll(plat, m, info, buffer, j, c);
      }
    }
  }

  /** Sampling one line per hugepage decides the alignment of every line of the buffer. */
  lemma SamplingExact(plat: Platform, m: Mapping, info: CacheInfo, buffer: Word)
    requires Fits(plat, info) && ValidMapping(plat, m) && Backed(plat, m, buffer, Needed(plat, info))
    ensures plat.hugeSize / plat.pageSize >= 1 && plat.hugeSize / info.lineSize >= 1 && info.totalSize >= 1
    ensures TestFrom(PagemapOf(plat, m, true), plat.pageSize, plat.hugeSize, buffer, info, 0)
         == if InPlace(Phys(plat, m), buffer, info) then ErrNone else ErrNotAligned
  {
    hide LineId, PagemapOf, Phys, TestFrom, Backed, ValidMapping;
    HugeRatio(plat);
    HugeLines(plat, info);
    ValidBounds(info);
    TestFromExact(plat, m, info, buffer, 0, 0);
  }
}
