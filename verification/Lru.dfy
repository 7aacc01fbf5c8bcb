/** A set-associative cache with least-recently-used replacement.

    This is the hardware the profiler measures, so it is an assumption of the model and not
    part of the program.  A line is named by its physical line number, and it lives in the set
    with that number modulo the set count.  A set is a recency list, most recent line first. */
module Lru {
  type Line = nat

  function Elems(s: seq<Line>): set<Line> {
    set x | x in s
  }

  predicate NoDup(s: seq<Line>) {
    forall i, j :: 0 <= i < j < |s| ==> s[i] != s[j]
  }

  function Top(s: seq<Line>, n: nat): seq<Line> {
    if |s| <= n then s else s[..n]
  }

  function Reversed(s: seq<Line>): seq<Line> {
    seq(|s|, i requires 0 <= i < |s| => s[|s| - 1 - i])
  }

  /** The elements of s outside a given set, in the order of s. */
  function Minus(s: seq<Line>, out: set<Line>): seq<Line> {
    if s == [] then []
    else if s[|s| - 1] in out then Minus(s[..|s| - 1], out)
    else Minus(s[..|s| - 1], out) + [s[|s| - 1]]
  }

  // ---------- one cache set ----------

  ghost predicate WellFormed(r: seq<Line>, ways: nat) {
    NoDup(r) && |r| <= ways
  }

  /** One access: a hit moves the line to the front; a miss evicts the last line of a full set. */
  function Touch(r: seq<Line>, x: Line, ways: nat): seq<Line>
    requires ways >= 1
  {
    if x in r then [x] + Minus(r, {x})
    else if |r| < ways then [x] + r
    else [x] + r[..ways - 1]
  }

  function RunSet(r: seq<Line>, xs: seq<Line>, ways: nat): seq<Line>
    requires ways >= 1
  {
    if xs == [] then r
    else Touch(RunSet(r, xs[..|xs| - 1], ways), xs[|xs| - 1], ways)
  }

  /** Reference definition: the distinct lines of a chronological trace, latest access first. */
  function Recent(h: seq<Line>): seq<Line> {
    if h == [] then []
    else [h[|h| - 1]] + Minus(Recent(h[..|h| - 1]), {h[|h| - 1]})
  }

  // ---------- the whole cache ----------

  type Cache = seq<seq<Line>>

  ghost predicate ValidCache(c: Cache, sets: nat, ways: nat) {
    |c| == sets && forall s :: 0 <= s < sets ==> WellFormed(c[s], ways)
  }

  predicate Hit(c: Cache, x: Line)
    requires |c| >= 1
  {
    x in c[x % |c|]
  }

  function Access(c: Cache, x: Line, ways: nat): Cache
    requires |c| >= 1 && ways >= 1
  {
    c[x % |c| := Touch(c[x % |c|], x, ways)]
  }

  function Run(c: Cache, xs: seq<Line>, ways: nat): (r: Cache)
    requires |c| >= 1 && ways >= 1
    ensures |r| == |c|
  {
    if xs == [] then c else Access(Run(c, xs[..|xs| - 1], ways), xs[|xs| - 1], ways)
  }

  /** The part of a trace that falls into cache set s. */
  function Project(xs: seq<Line>, s: nat, sets: nat): seq<Line>
    requires sets >= 1
  {
    if xs == [] then []
    else if xs[|xs| - 1] % sets == s then Project(xs[..|xs| - 1], s, sets) + [xs[|xs| - 1]]
    else Project(xs[..|xs| - 1], s, sets)
  }

  // ---------- sequences ----------

  lemma {:induction false} MinusElems(s: seq<Line>, out: set<Line>)
    ensures Elems(Minus(s, out)) == Elems(s) - out
    ensures NoDup(s) ==> NoDup(Minus(s, out))
    ensures |Minus(s, out)| <= |s|
  {
    if s != [] {
      var t := s[..|s| - 1];
      MinusElems(t, out);
      assert s == t + [s[|s| - 1]];
      assert Elems(s) == Elems(t) + {s[|s| - 1]};
      var m := Minus(t, out);
      if NoDup(s) && s[|s| - 1] !in out {
        assert s[|s| - 1] !in Elems(t);
        assert forall i :: 0 <= i < |m| ==> m[i] in Elems(m);
      }
      assert Elems(m + [s[|s| - 1]]) == Elems(m) + {s[|s| - 1]};
    }
  }

  lemma {:induction false} MinusConcat(a: seq<Line>, b: seq<Line>, out: set<Line>)
    ensures Minus(a + b, out) == Minus(a, out) + Minus(b, out)
  {
    if b == [] {
      assert a + b == a;
    } else {
      MinusConcat(a, b[..|b| - 1], out);
      assert (a + b)[..|a + b| - 1] == a + b[..|b| - 1];
    }
  }

  lemma {:induction false} MinusMinus(s: seq<Line>, p: set<Line>, q: set<Line>)
    ensures Minus(Minus(s, p), q) == Minus(s, p + q)
  {
    if s != [] {
      MinusMinus(s[..|s| - 1], p, q);
      MinusConcat(Minus(s[..|s| - 1], p), [s[|s| - 1]], q);
    }
  }

  lemma {:induction false} MinusDisjoint(s: seq<Line>, out: set<Line>)
    requires Elems(s) !! out
    ensures Minus(s, out) == s
  {
    if s != [] {
      assert Elems(s[..|s| - 1]) <= Elems(s);
      MinusDisjoint(s[..|s| - 1], out);
      assert s[|s| - 1] in Elems(s);
    }
  }

  lemma MinusOne(a: seq<Line>, x: Line, b: seq<Line>)
    requires x !in a && x !in b
    ensures Minus(a + [x] + b, {x}) == a + b
  {
    MinusConcat(a + [x], b, {x});
    MinusConcat(a, [x], {x});
    MinusDisjoint(a, {x});
    MinusDisjoint(b, {x});
  }

  /** Removing the one occurrence of an element. */
  lemma MinusAt(s: seq<Line>, p: nat)
    requires NoDup(s) && p < |s|
    ensures Minus(s, {s[p]}) == s[..p] + s[p + 1..]
  {
    assert s == s[..p] + [s[p]] + s[p + 1..];
    MinusOne(s[..p], s[p], s[p + 1..]);
  }

  lemma {:induction false} NoDupCardinality(s: seq<Line>)
    requires NoDup(s)
    ensures |Elems(s)| == |s|
  {
    if s != [] {
      var t := s[..|s| - 1];
      NoDupCardinality(t);
      assert Elems(s) == Elems(t) + {s[|s| - 1]};
      assert s[|s| - 1] !in Elems(t);
    }
  }

  // ---------- LRU keeps the most recent distinct lines ----------

  lemma ConcatElems(a: seq<Line>, b: seq<Line>)
    ensures Elems(a + b) == Elems(a) + Elems(b)
    ensures NoDup(a) && NoDup(b) && Elems(a) !! Elems(b) ==> NoDup(a + b)
  {
    forall x ensures x in Elems(a + b) <==> x in Elems(a) + Elems(b) {}
    if NoDup(a) && NoDup(b) && Elems(a) !! Elems(b) {
      forall i, j | 0 <= i < j < |a + b| ensures (a + b)[i] != (a + b)[j] {
        if i < |a| <= j {
          assert a[i] in Elems(a) && b[j - |a|] in Elems(b);
        }
      }
    }
  }

  lemma {:induction false} RecentElems(h: seq<Line>)
    ensures Elems(Recent(h)) == Elems(h)
    ensures NoDup(Recent(h))
    ensures |Recent(h)| == |Elems(h)|
  {
    if h != [] {
      var t, x := h[..|h| - 1], h[|h| - 1];
      RecentElems(t);
      RecentSnoc(t, x);
      assert h == t + [x];
      PrependNoDup(x, Recent(t));
    }
    NoDupCardinality(Recent(h));
  }

  lemma PrependNoDup(x: Line, r: seq<Line>)
    requires NoDup(r)
    ensures NoDup([x] + Minus(r, {x}))
    ensures Elems([x] + Minus(r, {x})) == Elems(r) + {x}
  {
    MinusElems(r, {x});
    ConcatElems([x], Minus(r, {x}));
  }

  lemma RecentSnoc(h: seq<Line>, x: Line)
    ensures Recent(h + [x]) == [x] + Minus(Recent(h), {x})
    ensures Elems(h + [x]) == Elems(h) + {x}
  {
    ConcatElems(h, [x]);
    assert (h + [x])[..|h|] == h;
  }

  lemma {:induction false} RecentConcat(a: seq<Line>, b: seq<Line>)
    ensures Recent(a + b) == Recent(b) + Minus(Recent(a), Elems(b))
  {
    if b == [] {
      assert a + b == a;
      MinusDisjoint(Recent(a), Elems(b));
    } else {
      var t, x := b[..|b| - 1], b[|b| - 1];
      RecentConcat(a, t);
      RecentConcatSnoc(a, t, x);
      assert b == t + [x];
    }
  }

  lemma RecentConcatSnoc(a: seq<Line>, t: seq<Line>, x: Line)
    requires Recent(a + t) == Recent(t) + Minus(Recent(a), Elems(t))
    ensures Recent(a + (t + [x])) == Recent(t + [x]) + Minus(Recent(a), Elems(t + [x]))
  {
    assert a + (t + [x]) == a + t + [x];
    RecentSnoc(a + t, x);
    RecentSnoc(t, x);
    RecentStep(Recent(t), Recent(a), Elems(t), x);
  }

  lemma RecentStep(p: seq<Line>, q: seq<Line>, out: set<Line>, x: Line)
    ensures [x] + Minus(p + Minus(q, out), {x}) == [x] + Minus(p, {x}) + Minus(q, out + {x})
  {
    MinusConcat(p, Minus(q, out), {x});
    MinusMinus(q, out, {x});
  }

  lemma {:induction false} RecentNoDup(h: seq<Line>)
    requires NoDup(h)
    ensures Recent(h) == Reversed(h)
  {
    if h != [] {
      var t, x := h[..|h| - 1], h[|h| - 1];
      RecentNoDup(t);
      assert forall i :: 0 <= i < |t| ==> t[i] != x;
      MinusDisjoint(Reversed(t), {x});
      assert Reversed(h) == [x] + Reversed(t);
    }
  }

  /** Truncating before or after an access makes no difference (the stack property of LRU). */
  lemma TouchTop(full: seq<Line>, x: Line, ways: nat)
    requires NoDup(full) && ways >= 1
    ensures Touch(Top(full, ways), x, ways) == Top([x] + Minus(full, {x}), ways)
  {
    var t, m := Top(full, ways), Minus(full, {x});
    assert Top([x] + m, ways) == [x] + Top(m, ways - 1);
    if x in t {
      TouchTopHit(full, x, ways);
    } else if |full| < ways {
      MinusDisjoint(full, {x});
    } else {
      TopMinus(full, x, ways);
    }
  }

  lemma TouchTopHit(full: seq<Line>, x: Line, ways: nat)
    requires NoDup(full) && ways >= 1 && x in Top(full, ways)
    ensures Minus(Top(full, ways), {x}) == Top(Minus(full, {x}), ways - 1)
  {
    var t := Top(full, ways);
    var p :| 0 <= p < |t| && t[p] == x;
    hide Minus, Elems;
    MinusAt(full, p);
    MinusAt(t, p);
  }

  lemma TopMinus(full: seq<Line>, x: Line, ways: nat)
    requires 1 <= ways <= |full| && x !in full[..ways]
    ensures |Minus(full, {x})| >= ways - 1
    ensures Minus(full, {x})[..ways - 1] == full[..ways][..ways - 1]
  {
    var a, b := full[..ways - 1], full[ways - 1..];
    assert full == a + b;
    MinusConcat(a, b, {x});
    assert forall i :: 0 <= i < |a| ==> a[i] == full[..ways][i];
    MinusDisjoint(a, {x});
  }

  /** LRU refines the reference definition: after a trace, a set holds the first `ways` of the
      distinct lines ordered by last access, older contents of the set coming last. */
  lemma {:induction false} RunSetIsRecent(r: seq<Line>, xs: seq<Line>, ways: nat)
    requires WellFormed(r, ways) && ways >= 1
    ensures RunSet(r, xs, ways) == Top(Recent(xs) + Minus(r, Elems(xs)), ways)
    ensures NoDup(Recent(xs) + Minus(r, Elems(xs)))
    ensures WellFormed(RunSet(r, xs, ways), ways)
  {
    HistoryNoDup(r, xs);
    if xs == [] {
      MinusDisjoint(r, Elems(xs));
    } else {
      var t, x := xs[..|xs| - 1], xs[|xs| - 1];
      RunSetIsRecent(r, t, ways);
      RunSetSnoc(r, t, x, ways);
      assert xs == t + [x];
    }
  }

  lemma RunSetSnoc(r: seq<Line>, t: seq<Line>, x: Line, ways: nat)
    requires WellFormed(r, ways) && ways >= 1
    requires RunSet(r, t, ways) == Top(Recent(t) + Minus(r, Elems(t)), ways)
    ensures RunSet(r, t + [x], ways) == Top(Recent(t + [x]) + Minus(r, Elems(t + [x])), ways)
  {
    HistoryNoDup(r, t);
    TouchTop(Recent(t) + Minus(r, Elems(t)), x, ways);
    RecentStep(Recent(t), r, Elems(t), x);
    RecentSnoc(t, x);
    assert (t + [x])[..|t|] == t;
  }

  lemma HistoryNoDup(r: seq<Line>, xs: seq<Line>)
    requires NoDup(r)
    ensures NoDup(Recent(xs) + Minus(r, Elems(xs)))
  {
    RecentElems(xs);
    MinusElems(r, Elems(xs));
    ConcatElems(Recent(xs), Minus(r, Elems(xs)));
  }

  /** Stack distance: a line accessed again hits exactly when fewer than `ways` distinct other
      lines of its set were accessed in between, whatever happened before. */
  lemma StackDistance(r: seq<Line>, a: seq<Line>, x: Line, b: seq<Line>, ways: nat)
    requires WellFormed(r, ways) && ways >= 1
    requires x !in b
    ensures x in RunSet(r, a + [x] + b, ways) <==> |Elems(b)| < ways
  {
    var h := a + [x] + b;
    RunSetIsRecent(r, h, ways);
    RecentAround(a, x, b);
    HistoryNoDup(r, h);
    hide RunSet, Recent, Minus, Elems;
    var full := Recent(h) + Minus(r, Elems(h));
    assert full[|Elems(b)|] == x;
  }

  /** The lines accessed since x come before it in the order of last access. */
  lemma RecentAround(a: seq<Line>, x: Line, b: seq<Line>)
    requires x !in b
    ensures |Elems(b)| < |Recent(a + [x] + b)| && Recent(a + [x] + b)[|Elems(b)|] == x
  {
    RecentConcat(a + [x], b);
    RecentConcat(a, [x]);
    assert [x][..0] == [];
    assert Recent([x]) == [x];
    RecentElems(b);
    var rest := Minus(Recent(a), Elems([x]));
    MinusConcat([x], rest, Elems(b));
    MinusDisjoint([x], Elems(b));
  }

  /** Accessing at least `ways` distinct lines, all different, replaces the contents of a set. */
  lemma FullRefill(r: seq<Line>, xs: seq<Line>, ways: nat)
    requires WellFormed(r, ways) && ways >= 1
    requires NoDup(xs) && |xs| == ways
    ensures RunSet(r, xs, ways) == Reversed(xs)
  {
    RunSetIsRecent(r, xs, ways);
    RecentNoDup(xs);
  }

  // ---------- refilling a set in one direction and reading it back in the other ----------

  lemma Regroup(a: seq<Line>, b: seq<Line>, c: seq<Line>, d: seq<Line>)
    ensures a + b + c + d == a + (b + c + d)
  {
  }

  lemma Elems3(p: seq<Line>, v: seq<Line>, q: seq<Line>)
    ensures Elems(p + v + q) == Elems(p) + Elems(v) + Elems(q)
  {
    ConcatElems(p, v);
    ConcatElems(p + v, q);
  }

  lemma HitAfter(r: seq<Line>, a: seq<Line>, x: Line, p: seq<Line>, v: seq<Line>, q: seq<Line>, ways: nat)
    requires WellFormed(r, ways) && ways >= 1
    requires x !in Elems(p) + Elems(v) + Elems(q)
    ensures x in RunSet(r, a + [x] + p + v + q, ways) <==> |Elems(p) + Elems(v) + Elems(q)| < ways
  {
    Elems3(p, v, q);
    Regroup(a + [x], p, v, q);
    StackDistance(r, a, x, p + v + q, ways);
  }

  lemma SplitAround(s: seq<Line>, p: nat)
    requires NoDup(s) && p < |s|
    ensures s == s[..p] + [s[p]] + s[p + 1..]
    ensures Elems(s[..p]) !! Elems(s[p + 1..]) && Elems(s[..p]) !! {s[p]} && Elems(s[p + 1..]) !! {s[p]}
    ensures |Elems(s[..p])| == p && |Elems(s[p + 1..])| == |s| - 1 - p
    ensures Elems(s[..p]) <= Elems(s) && Elems(s[p + 1..]) <= Elems(s) && s[p] in Elems(s)
  {
    NoDupCardinality(s[..p]);
    NoDupCardinality(s[p + 1..]);
    forall x | x in s[p + 1..] ensures x !in s[..p] && x != s[p] {
      var i :| p < i < |s| && s[i] == x;
    }
  }

  lemma ReversedSplit(s: seq<Line>, p: nat)
    requires p < |s|
    ensures Reversed(s) == Reversed(s[p + 1..]) + [s[p]] + Reversed(s[..p])
    ensures Elems(Reversed(s[..p])) == Elems(s[..p])
  {
    var a, b := s[..p], Reversed(s[..p]);
    assert forall i :: 0 <= i < p ==> a[i] == b[p - 1 - i];
    assert forall i :: 0 <= i < p ==> b[i] == a[p - 1 - i];
  }

  /** Opposite directions: the lines of the set were loaded last to first, k distinct other lines
      followed, and the lines are read back first to last.  Line w still hits iff w + k < ways. */
  lemma OppositeHit(r: seq<Line>, up: seq<Line>, v: seq<Line>, w: nat, ways: nat)
    requires WellFormed(r, ways) && NoDup(up) && |up| == ways && w < ways
    requires Elems(up) !! Elems(v)
    ensures up[w] in RunSet(r, Reversed(up) + v + up[..w], ways) <==> w + |Elems(v)| < ways
  {
    var p, q := Reversed(up[..w]), up[..w];
    SplitAround(up, w);
    ReversedSplit(up, w);
    HitAfter(r, Reversed(up[w + 1..]), up[w], p, v, q, ways);
    assert Elems(p) + Elems(v) + Elems(q) == Elems(q) + Elems(v);
  }

  /** Same direction twice: one foreign line is enough to make every line miss. */
  lemma SameDirectionHit(r: seq<Line>, up: seq<Line>, v: seq<Line>, w: nat, ways: nat)
    requires WellFormed(r, ways) && NoDup(up) && |up| == ways && w < ways
    requires Elems(up) !! Elems(v)
    ensures up[w] in RunSet(r, up + v + up[..w], ways) <==> v == []
  {
    var p, q := up[w + 1..], up[..w];
    SplitAround(up, w);
    HitAfter(r, q, up[w], p, v, q, ways);
    assert Elems(p) + Elems(v) + Elems(q) == Elems(p) + Elems(q) + Elems(v);
    assert v != [] ==> v[0] in Elems(v);
  }

  // ---------- sets are independent ----------

  lemma {:induction false} RunSetConcat(r: seq<Line>, a: seq<Line>, b: seq<Line>, ways: nat)
    requires ways >= 1
    ensures RunSet(r, a + b, ways) == RunSet(RunSet(r, a, ways), b, ways)
  {
    if b == [] {
      assert a + b == a;
    } else {
      RunSetConcat(r, a, b[..|b| - 1], ways);
      assert (a + b)[..|a + b| - 1] == a + b[..|b| - 1];
    }
  }

  lemma {:induction false} RunConcat(c: Cache, a: seq<Line>, b: seq<Line>, ways: nat)
    requires |c| >= 1 && ways >= 1
    ensures Run(c, a + b, ways) == Run(Run(c, a, ways), b, ways)
  {
    if b == [] {
      assert a + b == a;
    } else {
      RunConcat(c, a, b[..|b| - 1], ways);
      assert (a + b)[..|a + b| - 1] == a + b[..|b| - 1];
    }
  }

  lemma {:induction false} ProjectConcat(a: seq<Line>, b: seq<Line>, s: nat, sets: nat)
    requires sets >= 1
    ensures Project(a + b, s, sets) == Project(a, s, sets) + Project(b, s, sets)
  {
    if b == [] {
      assert a + b == a;
    } else {
      ProjectConcat(a, b[..|b| - 1], s, sets);
      assert (a + b)[..|a + b| - 1] == a + b[..|b| - 1];
    }
  }

  lemma {:induction false} ProjectUniform(xs: seq<Line>, home: nat, s: nat, sets: nat)
    requires sets >= 1
    requires forall i :: 0 <= i < |xs| ==> xs[i] % sets == home
    ensures Project(xs, s, sets) == if s == home then xs else []
  {
    if xs != [] {
      ProjectUniform(xs[..|xs| - 1], home, s, sets);
    }
  }

  lemma {:induction false} ProjectElems(xs: seq<Line>, s: nat, sets: nat)
    requires sets >= 1
    ensures Elems(Project(xs, s, sets)) == set x | x in xs && x % sets == s
  {
    if xs != [] {
      var t, x := xs[..|xs| - 1], xs[|xs| - 1];
      ProjectElems(t, s, sets);
      assert xs == t + [x];
      var p := Project(t, s, sets);
      assert Elems(p + [x]) == Elems(p) + {x};
    }
  }

  /** What a trace does to one set depends only on the accesses that map to it. */
  lemma {:induction false} RunProjects(c: Cache, xs: seq<Line>, s: nat, ways: nat)
    requires |c| >= 1 && ways >= 1 && s < |c|
    ensures Run(c, xs, ways)[s] == RunSet(c[s], Project(xs, s, |c|), ways)
  {
    if xs != [] {
      var t, x := xs[..|xs| - 1], xs[|xs| - 1];
      RunProjects(c, t, s, ways);
      if x % |c| == s {
        assert (Project(t, s, |c|) + [x])[..|Project(t, s, |c|)|] == Project(t, s, |c|);
      }
    }
  }

  lemma RunValid(c: Cache, xs: seq<Line>, sets: nat, ways: nat)
    requires sets >= 1 && ways >= 1 && ValidCache(c, sets, ways)
    ensures ValidCache(Run(c, xs, ways), sets, ways)
  {
    forall s | 0 <= s < sets ensures WellFormed(Run(c, xs, ways)[s], ways) {
      RunProjects(c, xs, s, ways);
      RunSetIsRecent(c[s], Project(xs, s, |c|), ways);
    }
  }
}
