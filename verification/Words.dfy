/** Machine words: the wrap-around, truncation and signed comparison of x86-64 registers. */
module Words {
  const TWO_TO_31: nat := 0x8000_0000
  const TWO_TO_32: nat := 0x1_0000_0000
  const TWO_TO_63: nat := 0x8000_0000_0000_0000
  const TWO_TO_64: nat := 0x1_0000_0000_0000_0000

  type Word = x: nat | x < TWO_TO_64

  function AddW(x: Word, y: Word): (r: Word)
    ensures x + y < TWO_TO_64 ==> r == x + y
  {
    (x + y) % TWO_TO_64
  }

  function MulW(x: Word, y: Word): (r: Word)
    ensures x * y < TWO_TO_64 ==> r == x * y
  {
    assert x * y >= 0;
    (x * y) % TWO_TO_64
  }

  function Inc(x: Word): Word {
    if x == TWO_TO_64 - 1 then 0 else x + 1
  }

  function Dec(x: Word): Word {
    if x == 0 then TWO_TO_64 - 1 else x - 1
  }

  /** The value of a register read as a signed number, as `jl` and `jnl` read it. */
  function Signed(x: Word): int {
    if x < TWO_TO_63 then x else x - TWO_TO_64
  }

  /** The flags of `cmp` followed by `jl`: jump when x is less than y as signed numbers. */
  predicate Less(x: Word, y: Word) {
    Signed(x) < Signed(y)
  }

  /** `sub` on the low halves of two registers. */
  function Sub32(x: nat, y: nat): nat
    requires x < TWO_TO_32 && y < TWO_TO_32
  {
    if y <= x then x - y else x + TWO_TO_32 - y
  }

  /** The numbers lo, ..., hi - 1. */
  function Range(lo: nat, hi: nat): (r: set<nat>)
    requires lo <= hi
    ensures forall w: nat :: w in r <==> lo <= w < hi
    ensures |r| == hi - lo
    decreases hi
  {
    if lo == hi then {} else Range(lo, hi - 1) + {hi - 1}
  }

  // ---------- division ----------

  lemma DivModUnique(q: int, r: int, d: int)
    requires d >= 1 && 0 <= r < d
    ensures (q * d + r) / d == q
    ensures (q * d + r) % d == r
  {
    var x := q * d + r;
    var e := x / d - q;
    assert e * d + x % d == r;
    assert e >= 1 ==> e * d >= d;
    assert e <= -1 ==> e * d <= -d;
  }

  lemma DivModBounds(x: nat, d: nat)
    requires d >= 1
    ensures x == (x / d) * d + x % d && 0 <= x % d < d
  {
  }

  lemma MulMono(a: nat, b: nat, c: nat)
    requires a <= b
    ensures a * c <= b * c
  {
  }

  lemma MulStep(r: nat, x: nat)
    ensures (r + 1) * x == r * x + x
    ensures r * x >= 0
  {
  }

  lemma Distribute(j: nat, r: nat, d: nat, line: nat)
    ensures (j * r + d) * line == j * (r * line) + d * line
  {
  }

  /** Rounding a quotient up. */
  lemma CeilDiv(t: nat, d: nat)
    requires t >= 1 && d >= 1
    ensures var n := (t + d - 1) / d;
      n >= 1 && n * d >= t && (n - 1) * d < t
  {
    var n := (t + d - 1) / d;
    DivModBounds(t + d - 1, d);
    assert (n - 1) * d == n * d - d;
  }

  /** Which block of size d an offset into an aligned area falls into. */
  lemma BlockOfOffset(b: nat, d: nat, offset: nat, t: nat)
    requires d >= 1 && b % d == 0 && offset < t
    ensures b / d <= (b + offset) / d < b / d + (t + d - 1) / d
  {
    var q, k, n := b / d, offset / d, (t + d - 1) / d;
    CeilDiv(t, d);
    DivModBounds(offset, d);
    DivModBounds(b, d);
    Distribute(q, 1, k, d);
    DivModUnique(q + k, offset % d, d);
    if k >= n {
      MulMono(n, k, d);
    }
  }

  /** Reducing a byte address modulo a whole number of lines, then naming its line. */
  lemma LineOfRemainder(p: nat, line: nat, count: nat)
    requires line >= 1 && count >= 1
    ensures line * count >= 1
    ensures (p % (line * count)) / line == (p / line) % count
  {
    var x := p / line;
    DivModBounds(p, line);
    DivModBounds(x, count);
    var q, i, r := x / count, x % count, p % line;
    MulMono(i + 1, count, line);
    assert p == q * (line * count) + (i * line + r) by {
      assert (q * count + i) * line == q * (line * count) + i * line;
    }
    assert i * line + r < count * line by { assert (i + 1) * line == i * line + line; }
    MulMono(1, count, line);
    DivModUnique(q, i * line + r, line * count);
    DivModUnique(i, r, line);
  }

  /** Reducing modulo a multiple first does not change a remainder. */
  lemma ModOfMultiple(x: nat, d: nat, k: nat)
    requires d >= 1 && k >= 1
    ensures k * d >= 1 && (x % (k * d)) % d == x % d
  {
    MulMono(1, k, d);
    DivModBounds(x, k * d);
    var y := x % (k * d);
    DivModBounds(y, d);
    var q := x / (k * d);
    assert x == (q * k + y / d) * d + y % d by {
      assert q * (k * d) == (q * k) * d;
      assert (q * k + y / d) * d == (q * k) * d + (y / d) * d;
    }
    DivModUnique(q * k + y / d, y % d, d);
  }

  /** The low words of two readings of a wrapping counter still give the elapsed count. */
  lemma ElapsedWraps(start: nat, elapsed: nat)
    ensures Sub32((start + elapsed) % TWO_TO_32, start % TWO_TO_32) == elapsed % TWO_TO_32
  {
    var m := TWO_TO_32;
    DivModBounds(start, m);
    DivModBounds(elapsed, m);
    var a, b := start % m, elapsed % m;
    var q := start / m + elapsed / m;
    if a + b < m {
      DivModUnique(q, a + b, m);
    } else {
      DivModUnique(q + 1, a + b - m, m);
    }
  }
}
