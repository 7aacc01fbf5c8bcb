/** Cache geometry and the layout of a cache-aligned buffer. */
module Geometry {
  import opened Words

  /** Multiplication by repeated addition.  Stating a size this way keeps the nonlinear equation
      out of every proof that does not ask for it through ProductIsTimes. */
  function Product(a: nat, b: nat): nat {
    if b == 0 then 0 else Product(a, b - 1) + a
  }

  lemma {:induction false} ProductIsTimes(a: nat, b: nat)
    ensures Product(a, b) == a * b
  {
    if b > 0 {
      ProductIsTimes(a, b - 1);
    }
  }

  datatype CacheInfo = CacheInfo(lineSize: nat, totalSize: nat, setCount: nat, ways: nat) {
    /** The geometry sysfs reports for a set-associative cache; all fields are 32 bits wide. */
    ghost predicate Valid() {
      && lineSize >= 1 && setCount >= 1 && ways >= 1
      && totalSize == Product(lineSize, Lines())
      && totalSize < TWO_TO_32
    }

    /** Number of lines of the whole cache. */
    function Lines(): nat {
      Product(setCount, ways)
    }
  }

  /** The buffer is laid out way after way. */
  function LineIndex(info: CacheInfo, s: nat, way: nat): nat {
    way * info.setCount + s
  }

  /** The cache set of a line index. */
  function SetOf(info: CacheInfo, i: nat): nat
    requires info.setCount >= 1
  {
    i % info.setCount
  }

  /** The way of a line index. */
  function WayOf(info: CacheInfo, i: nat): nat
    requires info.setCount >= 1
  {
    i / info.setCount
  }

  /** Translation of virtual to physical addresses as the running process sees it. */
  type Translation = nat -> nat

  /** The cache line number a byte of the buffer maps to, counted over the whole cache. */
  function LineId(phys: Translation, buffer: nat, info: CacheInfo, i: nat): nat
    requires info.lineSize >= 1 && info.totalSize >= 1
  {
    (phys(buffer + i * info.lineSize) % info.totalSize) / info.lineSize
  }

  /** Every line of the buffer sits in the cache line with its own number. */
  ghost predicate InPlace(phys: Translation, buffer: nat, info: CacheInfo)
    requires info.lineSize >= 1 && info.totalSize >= 1
  {
    forall i :: 0 <= i < info.Lines() ==> LineId(phys, buffer, info, i) == i
  }

  lemma ValidSizes(info: CacheInfo)
    requires info.Valid()
    ensures info.Lines() == info.setCount * info.ways && info.totalSize == info.lineSize * info.Lines()
  {
    ProductIsTimes(info.setCount, info.ways);
    ProductIsTimes(info.lineSize, info.Lines());
  }

  lemma LineCount(info: CacheInfo)
    requires info.Valid()
    ensures info.totalSize / info.lineSize == info.Lines()
  {
    ProductIsTimes(info.lineSize, info.Lines());
    DivModUnique(info.Lines(), 0, info.lineSize);
  }

  lemma ValidBounds(info: CacheInfo)
    requires info.Valid()
    ensures 1 <= info.setCount <= info.Lines() && 1 <= info.ways <= info.Lines()
    ensures 1 <= info.Lines() <= info.totalSize && 1 <= info.lineSize <= info.totalSize < TWO_TO_32
  {
    ProductIsTimes(info.setCount, info.ways);
    ProductIsTimes(info.lineSize, info.Lines());
    MulMono(1, info.setCount, info.ways);
    MulMono(1, info.ways, info.setCount);
    MulMono(1, info.lineSize, info.Lines());
    MulMono(1, info.Lines(), info.lineSize);
  }

  lemma IndexOfPlace(info: CacheInfo, s: nat, w: nat)
    requires info.Valid() && s < info.setCount && w < info.ways
    ensures var i := LineIndex(info, s, w); i < info.Lines() && i % info.setCount == s && i / info.setCount == w
  {
    ValidSizes(info);
    hide CacheInfo.Valid, CacheInfo.Lines;
    MulMono(w + 1, info.ways, info.setCount);
    MulStep(w, info.setCount);
    DivModUnique(w, s, info.setCount);
  }

  lemma PlaceOfIndex(info: CacheInfo, i: nat)
    requires info.Valid() && i < info.Lines()
    ensures SetOf(info, i) < info.setCount && WayOf(info, i) < info.ways
    ensures LineIndex(info, SetOf(info, i), WayOf(info, i)) == i
  {
    ValidSizes(info);
    hide CacheInfo.Valid, CacheInfo.Lines;
    DivModBounds(i, info.setCount);
    if i / info.setCount >= info.ways {
      MulMono(info.ways, i / info.setCount, info.setCount);
    }
  }

  /** (set, way) -> line index is a bijection onto [0, Lines). */
  lemma LineIndexBijection(info: CacheInfo)
    requires info.Valid()
    ensures forall s: nat, w: nat :: s < info.setCount && w < info.ways ==>
      var i := LineIndex(info, s, w);
      i < info.Lines() && i % info.setCount == s && i / info.setCount == w
    ensures forall i: nat :: i < info.Lines() ==>
      i / info.setCount < info.ways && LineIndex(info, i % info.setCount, i / info.setCount) == i
  {
    assert info.setCount >= 1;
    hide LineIndex, CacheInfo.Valid, CacheInfo.Lines;
    forall s: nat, w: nat | s < info.setCount && w < info.ways
      ensures var i := LineIndex(info, s, w);
              i < info.Lines() && i % info.setCount == s && i / info.setCount == w
    {
      IndexOfPlace(info, s, w);
    }
    forall i: nat | i < info.Lines()
      ensures i / info.setCount < info.ways
      ensures LineIndex(info, i % info.setCount, i / info.setCount) == i
    {
      PlaceOfIndex(info, i);
    }
  }
}
