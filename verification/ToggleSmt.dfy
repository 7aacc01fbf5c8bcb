/** Grouping logical cores by physical core, and switching SMT off or on. */
module ToggleSmt {
  /** The physical id of an offline core cannot be read. */
  datatype PhysicalId = Known(n: int) | Unknown

  /** A logical core as found when the program starts; the snapshot is never updated. The id is the
      text after "cpu" in the name of its directory. */
  datatype LogicalCore = LogicalCore(id: string, online: bool, physicalId: PhysicalId)

  ghost predicate DistinctIds(cores: seq<LogicalCore>) {
    forall i, j :: 0 <= i < j < |cores| ==> cores[i].id != cores[j].id
  }

  /** What parse_theoretical_cores yields: distinct directories, ids known for online cores only. */
  ghost predicate Parsed(cores: seq<LogicalCore>) {
    && DistinctIds(cores)
    && (forall i :: 0 <= i < |cores| ==> (cores[i].online <==> cores[i].physicalId.Known?))
  }

  // ---------- grouping ----------

  /** The distinct physical ids in the order of their first appearance. */
  function Ids(cores: seq<LogicalCore>): seq<PhysicalId> {
    if cores == [] then []
    else
      var before := Ids(cores[..|cores| - 1]);
      var pid := cores[|cores| - 1].physicalId;
      if pid in before then before else before + [pid]
  }

  /** The cores with a physical id, in their original order. */
  function Members(cores: seq<LogicalCore>, pid: PhysicalId): seq<LogicalCore> {
    if cores == [] then []
    else
      var before := Members(cores[..|cores| - 1], pid);
      if cores[|cores| - 1].physicalId == pid then before + [cores[|cores| - 1]] else before
  }

  lemma {:induction false} IdsDistinct(cores: seq<LogicalCore>)
    ensures forall i, j :: 0 <= i < j < |Ids(cores)| ==> Ids(cores)[i] != Ids(cores)[j]
  {
    if cores != [] {
      IdsDistinct(cores[..|cores| - 1]);
    }
  }

  /** No group is empty, and there is a group for every id that occurs. */
  lemma {:induction false} MembersExist(cores: seq<LogicalCore>, pid: PhysicalId)
    ensures pid in Ids(cores) <==> Members(cores, pid) != []
  {
    if cores != [] {
      MembersExist(cores[..|cores| - 1], pid);
    }
  }

  /** Every core is in the group of its physical id and in no other, and nothing else is. */
  lemma {:induction false} Partition(cores: seq<LogicalCore>, pid: PhysicalId, c: LogicalCore)
    ensures c in Members(cores, pid) <==> c in cores && c.physicalId == pid
  {
    if cores != [] {
      Partition(cores[..|cores| - 1], pid, c);
      assert cores == cores[..|cores| - 1] + [cores[|cores| - 1]];
    }
  }

  /** Each group lists its cores in the original order. */
  lemma {:induction false} MembersStable(cores: seq<LogicalCore>, pid: PhysicalId) returns (positions: seq<nat>)
    ensures |positions| == |Members(cores, pid)|
    ensures forall i, j :: 0 <= i < j < |positions| ==> positions[i] < positions[j]
    ensures forall i :: 0 <= i < |positions| ==>
      positions[i] < |cores| && cores[positions[i]] == Members(cores, pid)[i]
  {
    positions := [];
    if cores != [] {
      positions := MembersStable(cores[..|cores| - 1], pid);
      if cores[|cores| - 1].physicalId == pid {
        positions := positions + [|cores| - 1];
      }
    }
  }

  /** The groups together have as many cores as the machine. */
  lemma {:induction false} GroupSizes(cores: seq<LogicalCore>)
    ensures TotalSize(cores, Ids(cores)) == |cores|
  {
    if cores != [] {
      var t, c := cores[..|cores| - 1], cores[|cores| - 1];
      GroupSizes(t);
      IdsDistinct(t);
      AddOne(t, c, Ids(t));
      MembersExist(t, c.physicalId);
      assert cores == t + [c];
      if c.physicalId !in Ids(t) {
        assert Ids(cores)[..|Ids(t)|] == Ids(t);
      }
    }
  }

  function TotalSize(cores: seq<LogicalCore>, ids: seq<PhysicalId>): nat {
    if ids == [] then 0
    else TotalSize(cores, ids[..|ids| - 1]) + |Members(cores, ids[|ids| - 1])|
  }

  lemma {:induction false} AddOne(t: seq<LogicalCore>, c: LogicalCore, ids: seq<PhysicalId>)
    requires forall i, j :: 0 <= i < j < |ids| ==> ids[i] != ids[j]
    ensures TotalSize(t + [c], ids) == TotalSize(t, ids) + if c.physicalId in ids then 1 else 0
  {
    assert (t + [c])[..|t|] == t;
    if ids != [] {
      AddOne(t, c, ids[..|ids| - 1]);
      assert ids == ids[..|ids| - 1] + [ids[|ids| - 1]];
    }
  }

  // ---------- sorting ----------

  ghost predicate TotalOrder<K(!new)>(leq: (K, K) -> bool) {
    && (forall x, y :: leq(x, y) || leq(y, x))
    && (forall x, y, z :: leq(x, y) && leq(y, z) ==> leq(x, z))
  }

  ghost predicate Ordered<T, K>(s: seq<T>, key: T -> K, leq: (K, K) -> bool) {
    forall i, j :: 0 <= i < j < |s| ==> leq(key(s[i]), key(s[j]))
  }

  lemma OrderLaws<K(!new)>(leq: (K, K) -> bool, x: K, y: K, z: K)
    requires TotalOrder(leq)
    ensures leq(x, x) && (leq(x, y) || leq(y, x)) && (leq(x, y) && leq(y, z) ==> leq(x, z))
  {
  }

  /** Insertion before the first element that is not smaller. */
  function Insert<T, K>(x: T, s: seq<T>, key: T -> K, leq: (K, K) -> bool): (r: seq<T>)
    ensures multiset(r) == multiset{x} + multiset(s)
  {
    if s == [] || leq(key(x), key(s[0])) then [x] + s
    else
      assert s == [s[0]] + s[1..];
      [s[0]] + Insert(x, s[1..], key, leq)
  }

  lemma {:induction false} InsertOrdered<T, K(!new)>(x: T, s: seq<T>, key: T -> K, leq: (K, K) -> bool)
    requires TotalOrder(leq) && Ordered(s, key, leq)
    ensures Ordered(Insert(x, s, key, leq), key, leq)
  {
    hide TotalOrder;
    if s != [] {
      OrderLaws(leq, key(x), key(s[0]), key(s[0]));
      if leq(key(x), key(s[0])) {
        forall i | 0 <= i < |s| ensures leq(key(x), key(s[i])) {
          OrderLaws(leq, key(x), key(s[0]), key(s[i]));
        }
      } else {
        var r := Insert(x, s[1..], key, leq);
        InsertOrdered(x, s[1..], key, leq);
        forall i | 0 <= i < |r| ensures leq(key(s[0]), key(r[i])) {
          assert r[i] in multiset(r);
          assert r[i] == x || r[i] in s[1..];
        }
      }
    }
  }

  /** The sort by key of the library. */
  function Sort<T, K(!new)>(s: seq<T>, key: T -> K, leq: (K, K) -> bool): (r: seq<T>)
    requires TotalOrder(leq)
    ensures multiset(r) == multiset(s) && Ordered(r, key, leq)
  {
    if s == [] then []
    else
      var rest := Sort(s[1..], key, leq);
      InsertOrdered(s[0], rest, key, leq);
      assert s == [s[0]] + s[1..];
      Insert(s[0], rest, key, leq)
  }

  /** The order of strings: character by character, and a prefix comes first. */
  predicate LexLeq(a: string, b: string) {
    a == "" || (b != "" && (a[0] < b[0] || (a[0] == b[0] && LexLeq(a[1..], b[1..]))))
  }

  lemma {:induction false} LexTotal(a: string, b: string)
    ensures LexLeq(a, b) || LexLeq(b, a)
    ensures LexLeq(a, b) && LexLeq(b, a) ==> a == b
  {
    if a != "" && b != "" && a[0] == b[0] {
      LexTotal(a[1..], b[1..]);
      assert a == [a[0]] + a[1..] && b == [b[0]] + b[1..];
    }
  }

  /** a comes before b: at the first difference its character is smaller, or it is a shorter beginning
      of b. */
  ghost predicate Before(a: string, b: string) {
    || (|a| < |b| && b[..|a|] == a)
    || (exists n :: 0 <= n < |a| && n < |b| && a[..n] == b[..n] && a[n] < b[n])
  }

  lemma {:induction false} LexPrefix(p: string, u: string)
    ensures LexLeq(p, p + u)
  {
    if p != "" {
      LexPrefix(p[1..], u);
      assert (p + u)[1..] == p[1..] + u;
    }
  }

  /** The first difference decides. */
  lemma {:induction false} LexDifference(p: string, x: char, u: string, y: char, v: string)
    requires x < y
    ensures LexLeq(p + [x] + u, p + [y] + v) && !LexLeq(p + [y] + v, p + [x] + u)
  {
    if p == "" {
      assert (p + [x] + u)[0] == x && (p + [y] + v)[0] == y;
    } else {
      LexDifference(p[1..], x, u, y, v);
      assert (p + [x] + u)[1..] == p[1..] + [x] + u;
      assert (p + [y] + v)[1..] == p[1..] + [y] + v;
    }
  }

  lemma LexOfBefore(a: string, b: string)
    requires Before(a, b)
    ensures LexLeq(a, b) && !LexLeq(b, a)
  {
    if |a| < |b| && b[..|a|] == a {
      assert b == a + b[|a|..];
      LexPrefix(a, b[|a|..]);
      LexTotal(a, b);
    } else {
      var n :| 0 <= n < |a| && n < |b| && a[..n] == b[..n] && a[n] < b[n];
      assert a == a[..n] + [a[n]] + a[n + 1..];
      assert b == a[..n] + [b[n]] + b[n + 1..];
      LexDifference(a[..n], a[n], a[n + 1..], b[n], b[n + 1..]);
    }
  }

  lemma {:induction false} BeforeOfLex(a: string, b: string)
    requires LexLeq(a, b)
    ensures a == b || Before(a, b)
  {
    if a == "" {
      assert b[..0] == "";
    } else if a[0] < b[0] {
      assert a[..0] == b[..0];
    } else {
      BeforeOfLex(a[1..], b[1..]);
      assert a == [a[0]] + a[1..] && b == [b[0]] + b[1..];
      if Before(a[1..], b[1..]) {
        BeforeCons(a[0], a[1..], b[1..]);
      }
    }
  }

  lemma BeforeCons(c: char, a: string, b: string)
    requires Before(a, b)
    ensures Before([c] + a, [c] + b)
  {
    if |a| < |b| && b[..|a|] == a {
      assert ([c] + b)[..|a| + 1] == [c] + b[..|a|];
    } else {
      var n :| 0 <= n < |a| && n < |b| && a[..n] == b[..n] && a[n] < b[n];
      assert ([c] + a)[..n + 1] == [c] + a[..n] && ([c] + b)[..n + 1] == [c] + b[..n];
      assert ([c] + a)[n + 1] < ([c] + b)[n + 1];
    }
  }

  /** The order of the sort is exactly the order of strings. */
  lemma LexExactly(a: string, b: string)
    ensures LexLeq(a, b) <==> a == b || Before(a, b)
  {
    hide Before;
    LexTotal(a, a);
    if LexLeq(a, b) {
      BeforeOfLex(a, b);
    }
    if Before(a, b) {
      LexOfBefore(a, b);
    }
  }

  /** So cpu10 comes before cpu2. */
  lemma TenBeforeTwo()
    ensures LexLeq("10", "2") && !LexLeq("2", "10")
  {
    LexDifference("", '1', "0", '2', "");
    assert "" + ['1'] + "0" == "10" && "" + ['2'] + "" == "2";
  }

  lemma {:induction false} LexTransitive(a: string, b: string, c: string)
    requires LexLeq(a, b) && LexLeq(b, c)
    ensures LexLeq(a, c)
  {
    if a != "" && a[0] == b[0] == c[0] {
      LexTransitive(a[1..], b[1..], c[1..]);
    }
  }

  lemma LexOrder()
    ensures TotalOrder(LexLeq)
  {
    forall a, b ensures LexLeq(a, b) || LexLeq(b, a) {
      LexTotal(a, b);
    }
    forall a, b, c | LexLeq(a, b) && LexLeq(b, c) ensures LexLeq(a, c) {
      LexTransitive(a, b, c);
    }
  }

  function CoreKey(c: LogicalCore): string {
    c.id
  }

  /** Reordering a list keeps its cores and their distinctness. */
  lemma Reordered(before: seq<LogicalCore>, after: seq<LogicalCore>)
    requires multiset(before) == multiset(after) && DistinctIds(before)
    ensures DistinctIds(after) && |after| == |before|
    ensures forall c :: c in after <==> c in before
  {
    assert |multiset(before)| == |before| && |multiset(after)| == |after|;
    forall c ensures c in after <==> c in before {
      assert c in after <==> c in multiset(after);
      assert c in before <==> c in multiset(before);
    }
    forall i, j | 0 <= i < j < |after| ensures after[i].id != after[j].id {
      if after[i].id == after[j].id {
        SameCore(before, after[i], after[j]);
        Twice(after, i, j);
        Once(before, after[i]);
      }
    }
  }

  lemma SameCore(cores: seq<LogicalCore>, c: LogicalCore, d: LogicalCore)
    requires DistinctIds(cores) && c in cores && d in cores && c.id == d.id
    ensures c == d
  {
  }

  lemma Twice<T>(s: seq<T>, i: nat, j: nat)
    requires i < j < |s| && s[i] == s[j]
    ensures multiset(s)[s[i]] >= 2
  {
    assert s == s[..j] + [s[j]] + s[j + 1..];
    assert s[i] in s[..j];
  }

  lemma {:induction false} Once<T>(s: seq<T>, x: T)
    requires forall i, j :: 0 <= i < j < |s| ==> s[i] != s[j]
    ensures multiset(s)[x] <= 1
  {
    if s != [] {
      var t, last := s[..|s| - 1], s[|s| - 1];
      Once(t, x);
      assert s == t + [last];
      assert last !in t;
    }
  }

  // ---------- switching ----------

  /** A core without an `online` file counts as online. */
  predicate Up(online: map<string, bool>, id: string) {
    id !in online || online[id]
  }

  /** /sys/devices/system/cpu/cpu<id>/online for the cores that have such a file. */
  class Sysfs {
    var online: map<string, bool>

    constructor (online: map<string, bool>)
      ensures this.online == online
    {
      this.online := online;
    }

    /** Opening a file that does not exist fails: no file can be created there. */
    method Write(id: string, value: bool) returns (ok: bool)
      modifies this
      ensures ok <==> id in old(online)
      ensures online == if ok then old(online)[id := value] else old(online)
    {
      ok := id in online;
      if ok {
        online := online[id := value];
      }
    }

    method Enable(core: LogicalCore) returns (ok: bool)
      modifies this
      ensures ok <==> core.online || core.id in old(online)
      ensures online == if core.online || !ok then old(online) else old(online)[core.id := true]
    {
      ok := true;
      if !core.online {
        ok := Write(core.id, true);
      }
    }

    method Disable(core: LogicalCore) returns (ok: bool)
      modifies this
      ensures ok <==> !core.online || core.id in old(online)
      ensures online == if !core.online || !ok then old(online) else old(online)[core.id := false]
    {
      ok := true;
      if core.online {
        ok := Write(core.id, false);
      }
    }
  }

  /** The files still show what was read when the program started. */
  ghost predicate AsFound(online: map<string, bool>, cores: seq<LogicalCore>) {
    forall i :: 0 <= i < |cores| ==> (Up(online, cores[i].id) <==> cores[i].online)
  }

  /** Only the first of the cores is online. */
  ghost predicate OnlyFirst(online: map<string, bool>, cores: seq<LogicalCore>) {
    forall i :: 0 <= i < |cores| ==> (Up(online, cores[i].id) <==> i == 0)
  }

  ghost predicate AllUp(online: map<string, bool>, cores: seq<LogicalCore>) {
    forall i :: 0 <= i < |cores| ==> Up(online, cores[i].id)
  }

  /** The run ended at core n, which is online and has no file: the cores before it are switched and
      the others are as found. */
  ghost predicate StoppedAt(online: map<string, bool>, cores: seq<LogicalCore>, n: int) {
    && 1 <= n < |cores| && cores[n].online && cores[n].id !in online
    && (forall i :: 0 <= i < n ==> (Up(online, cores[i].id) <==> i == 0))
    && (forall i :: n <= i < |cores| ==> (Up(online, cores[i].id) <==> cores[i].online))
  }

  lemma Stopped(online: map<string, bool>, cores: seq<LogicalCore>, n: nat)
    requires 1 <= n < |cores| && cores[n].online && cores[n].id !in online
    requires forall i :: 0 <= i < n ==> (Up(online, cores[i].id) <==> i == 0)
    requires forall i :: n <= i < |cores| ==> (Up(online, cores[i].id) <==> cores[i].online)
    ensures StoppedAt(online, cores, n)
  {
  }

  /** The files that are there are the same, and those of all other cores are as before. */
  ghost predicate Untouched(before: map<string, bool>, after: map<string, bool>, cores: seq<LogicalCore>) {
    && after.Keys == before.Keys
    && (forall id :: id in before && (forall i :: 0 <= i < |cores| ==> cores[i].id != id) ==> after[id] == before[id])
  }

  lemma Same(online: map<string, bool>, cores: seq<LogicalCore>)
    ensures Untouched(online, online, cores)
  {
  }

  /** A write to an existing file of one of the cores. */
  lemma Written(before: map<string, bool>, after: map<string, bool>, cores: seq<LogicalCore>, k: nat)
    requires k < |cores| && Untouched(before, after, cores)
    ensures cores[k].id in after ==> Untouched(before, after[cores[k].id := true], cores)
    ensures cores[k].id in after ==> Untouched(before, after[cores[k].id := false], cores)
  {
  }

  /** Every core that switching off has to write has a file. */
  ghost predicate Writable(files: set<string>, cores: seq<LogicalCore>) {
    forall i :: 1 <= i < |cores| && cores[i].online ==> cores[i].id in files
  }

  class PhysicalCore {
    const id: PhysicalId
    var cores: seq<LogicalCore>

    constructor (id: PhysicalId, cores: seq<LogicalCore>)
      ensures this.id == id && this.cores == cores
    {
      this.id, this.cores := id, cores;
    }

    /** Printing the group sorts it by id. */
    method Str()
      modifies this
      ensures multiset(cores) == multiset(old(cores)) && Ordered(cores, CoreKey, LexLeq)
      ensures forall i, j :: 0 <= i < j < |cores| ==> cores[i].id == cores[j].id || Before(cores[i].id, cores[j].id)
    {
      LexOrder();
      cores := Sort(cores, CoreKey, LexLeq);
      hide Sort;
      forall i, j | 0 <= i < j < |cores| ensures cores[i].id == cores[j].id || Before(cores[i].id, cores[j].id) {
        assert LexLeq(CoreKey(cores[i]), CoreKey(cores[j]));
        LexExactly(cores[i].id, cores[j].id);
      }
    }

    method DisableSmt(sys: Sysfs) returns (ok: bool)
      requires cores != [] && DistinctIds(cores) && AsFound(sys.online, cores)
      modifies sys
      ensures ok <==> Writable(old(sys.online).Keys, cores)
      ensures ok ==> OnlyFirst(sys.online, cores)
      ensures !ok ==> exists n :: StoppedAt(sys.online, cores, n)
      ensures Untouched(old(sys.online), sys.online, cores)
    {
      hide Untouched, StoppedAt;
      Same(sys.online, cores);
      ok := sys.Enable(cores[0]);
      assert ok;
      Written(old(sys.online), old(sys.online), cores, 0);
      for k := 1 to |cores|
        invariant sys.online.Keys == old(sys.online).Keys
        invariant Writable(sys.online.Keys, cores[..k])
        invariant forall i :: 0 <= i < k ==> (Up(sys.online, cores[i].id) <==> i == 0)
        invariant forall i :: k <= i < |cores| ==> (Up(sys.online, cores[i].id) <==> cores[i].online)
        invariant Untouched(old(sys.online), sys.online, cores)
      {
        ghost var before := sys.online;
        Written(old(sys.online), before, cores, k);
        ok := sys.Disable(cores[k]);
        assert cores[..k + 1] == cores[..k] + [cores[k]];
        assert forall i :: 0 <= i < |cores| && i != k ==> Up(sys.online, cores[i].id) == Up(before, cores[i].id);
        if !ok {
          Stopped(sys.online, cores, k);
          return;
        }
      }
      assert cores[..|cores|] == cores;
      ok := true;
    }

    method EnableSmt(sys: Sysfs)
      requires DistinctIds(cores) && AsFound(sys.online, cores)
      modifies sys
      ensures AllUp(sys.online, cores) && Untouched(old(sys.online), sys.online, cores)
    {
      for k := 0 to |cores|
        invariant forall i :: 0 <= i < k ==> Up(sys.online, cores[i].id)
        invariant forall i :: k <= i < |cores| ==> (Up(sys.online, cores[i].id) <==> cores[i].online)
        invariant Untouched(old(sys.online), sys.online, cores)
      {
        var ok := sys.Enable(cores[k]);
        assert ok;
      }
    }
  }

  /** The dictionary maps each id to its group; `order` lists its keys as inserted. */
  method ParsePhysicalCores(cores: seq<LogicalCore>) returns (groups: seq<PhysicalCore>)
    ensures |groups| == |Ids(cores)| && fresh(groups)
    ensures forall i, j :: 0 <= i < j < |groups| ==> groups[i] != groups[j]
    ensures forall i :: 0 <= i < |groups| ==>
      groups[i].id == Ids(cores)[i] && groups[i].cores == Members(cores, Ids(cores)[i])
  {
    var order: seq<PhysicalId>, dict: map<PhysicalId, PhysicalCore> := [], map[];
    for k := 0 to |cores|
      invariant order == Ids(cores[..k])
      invariant forall pid :: pid in dict <==> pid in order
      invariant forall pid :: pid in dict ==> fresh(dict[pid]) && dict[pid].id == pid
      invariant forall pid :: pid in dict ==> dict[pid].cores == Members(cores[..k], pid)
    {
      var core := cores[k];
      var pid := core.physicalId;
      assert cores[..k + 1][..k] == cores[..k];
      MembersExist(cores[..k], pid);
      if pid in dict {
        dict[pid].cores := dict[pid].cores + [core];
      } else {
        var group := new PhysicalCore(pid, [core]);
        dict := dict[pid := group];
        order := order + [pid];
      }
    }
    assert cores[..|cores|] == cores;
    groups := seq(|order|, i requires 0 <= i < |order| && order[i] in dict => dict[order[i]]);
    IdsDistinct(cores);
  }


  // ---------- the whole machine ----------

  /** The groups, in any order and each in any order: one per physical id, with exactly its cores. */
  ghost predicate Grouped(groups: seq<PhysicalCore>, cores: seq<LogicalCore>)
    reads groups
  {
    && (forall i, j :: 0 <= i < j < |groups| ==> groups[i].id != groups[j].id)
    && (forall c :: c in cores ==> exists g :: g in groups && g.id == c.physicalId)
    && (forall g :: g in groups ==> Group(g.id, g.cores, cores))
  }

  ghost predicate Group(id: PhysicalId, members: seq<LogicalCore>, cores: seq<LogicalCore>) {
    members != [] && DistinctIds(members) && forall c :: c in members <==> c in cores && c.physicalId == id
  }

  /** The least id, as a string, among the cores of its physical id. */
  ghost predicate IsLeast(cores: seq<LogicalCore>, c: LogicalCore) {
    forall d :: d in cores && d.physicalId == c.physicalId ==> LexLeq(c.id, d.id)
  }

  lemma {:induction false} MembersDistinct(cores: seq<LogicalCore>, pid: PhysicalId)
    requires DistinctIds(cores)
    ensures DistinctIds(Members(cores, pid))
  {
    if cores != [] {
      var t := cores[..|cores| - 1];
      MembersDistinct(t, pid);
      forall k | 0 <= k < |Members(t, pid)| ensures Members(t, pid)[k].id != cores[|cores| - 1].id {
        Partition(t, pid, Members(t, pid)[k]);
      }
    }
  }

  lemma IsGroup(cores: seq<LogicalCore>, pid: PhysicalId)
    requires DistinctIds(cores) && pid in Ids(cores)
    ensures Group(pid, Members(cores, pid), cores)
  {
    MembersExist(cores, pid);
    MembersDistinct(cores, pid);
    forall c ensures c in Members(cores, pid) <==> c in cores && c.physicalId == pid {
      Partition(cores, pid, c);
    }
  }

  lemma IdOccurs(cores: seq<LogicalCore>, c: LogicalCore)
    requires c in cores
    ensures c.physicalId in Ids(cores)
  {
    MembersExist(cores, c.physicalId);
    Partition(cores, c.physicalId, c);
  }

  function GroupKey(g: PhysicalCore): int {
    if g.id.Known? then g.id.n else 9999
  }

  predicate Leq(a: int, b: int) {
    a <= b
  }

  lemma SameGroup(groups: seq<PhysicalCore>, sorted: seq<PhysicalCore>, i: nat, j: nat)
    requires forall a, b :: 0 <= a < b < |groups| ==> groups[a].id != groups[b].id
    requires multiset(groups) == multiset(sorted) && i < j < |sorted|
    ensures sorted[i].id != sorted[j].id
  {
    var g, h := sorted[i], sorted[j];
    assert g in multiset(sorted) && h in multiset(sorted);
    assert g in groups && h in groups;
    if g.id == h.id {
      Twice(sorted, i, j);
      Once(groups, g);
    }
  }

  lemma GroupsReordered(groups: seq<PhysicalCore>, sorted: seq<PhysicalCore>, cores: seq<LogicalCore>)
    requires Grouped(groups, cores) && multiset(groups) == multiset(sorted)
    ensures Grouped(sorted, cores)
  {
    hide Group;
    forall g ensures g in sorted <==> g in groups {
      assert g in groups <==> g in multiset(groups);
      assert g in sorted <==> g in multiset(sorted);
    }
    forall i, j | 0 <= i < j < |sorted| ensures sorted[i].id != sorted[j].id {
      SameGroup(groups, sorted, i, j);
    }
  }

  lemma ParsedGroups(groups: seq<PhysicalCore>, cores: seq<LogicalCore>)
    requires DistinctIds(cores) && |groups| == |Ids(cores)|
    requires forall i :: 0 <= i < |groups| ==>
      groups[i].id == Ids(cores)[i] && groups[i].cores == Members(cores, Ids(cores)[i])
    ensures Grouped(groups, cores)
  {
    hide Group, Members, Ids, DistinctIds;
    IdsDistinct(cores);
    forall g | g in groups ensures Group(g.id, g.cores, cores) {
      IsGroup(cores, g.id);
    }
    forall c | c in cores ensures exists g :: g in groups && g.id == c.physicalId {
      IdOccurs(cores, c);
      var i :| 0 <= i < |Ids(cores)| && Ids(cores)[i] == c.physicalId;
      assert groups[i] in groups;
    }
  }

  /** Parsing the cores and sorting the groups by their number, the offline ones as 9999. */
  method SortedGroups(cores: seq<LogicalCore>) returns (groups: seq<PhysicalCore>)
    requires DistinctIds(cores)
    ensures fresh(groups) && Grouped(groups, cores) && Ordered(groups, GroupKey, Leq)
  {
    hide Grouped, Members, Ids, DistinctIds, Sort, Ordered;
    var parsed := ParsePhysicalCores(cores);
    ParsedGroups(parsed, cores);
    groups := Sort(parsed, GroupKey, Leq);
    GroupsReordered(parsed, groups, cores);
    forall i | 0 <= i < |groups| ensures fresh(groups[i]) {
      assert groups[i] in multiset(groups);
      assert groups[i] in multiset(parsed);
    }
  }

  lemma GroupReordered(id: PhysicalId, before: seq<LogicalCore>, after: seq<LogicalCore>, cores: seq<LogicalCore>)
    requires Group(id, before, cores) && multiset(before) == multiset(after)
    ensures Group(id, after, cores)
  {
    Reordered(before, after);
  }

  /** The status loop of main. */
  method PrintAll(groups: seq<PhysicalCore>, ghost cores: seq<LogicalCore>)
    requires Grouped(groups, cores)
    modifies groups
    ensures Grouped(groups, cores)
    ensures forall g :: g in groups ==> Ordered(g.cores, CoreKey, LexLeq)
  {
    hide Group, Ordered;
    for k := 0 to |groups|
      invariant forall g :: g in groups ==> Group(g.id, g.cores, cores)
      invariant forall i :: 0 <= i < k ==> Ordered(groups[i].cores, CoreKey, LexLeq)
    {
      ghost var before := groups[k].cores;
      groups[k].Str();
      GroupReordered(groups[k].id, before, groups[k].cores, cores);
    }
  }

  /** What happens to one group leaves another as it was. */
  lemma OtherGroup(before: map<string, bool>, after: map<string, bool>, cores: seq<LogicalCore>,
                   id: PhysicalId, changed: seq<LogicalCore>, other: PhysicalId, members: seq<LogicalCore>)
    requires DistinctIds(cores) && Untouched(before, after, changed) && id != other
    requires Group(id, changed, cores) && Group(other, members, cores)
    ensures AsFound(before, members) ==> AsFound(after, members)
    ensures OnlyFirst(before, members) ==> OnlyFirst(after, members)
    ensures AllUp(before, members) ==> AllUp(after, members)
  {
    forall i | 0 <= i < |members| ensures Up(after, members[i].id) <==> Up(before, members[i].id) {
      forall k | 0 <= k < |changed| ensures changed[k].id != members[i].id {
        if changed[k].id == members[i].id {
          SameCore(cores, changed[k], members[i]);
        }
      }
    }
  }

  /** If the first of the cores was online when the program started, it is online. */
  ghost predicate FirstKept(online: map<string, bool>, cores: seq<LogicalCore>) {
    cores != [] && (cores[0].online ==> Up(online, cores[0].id))
  }

  lemma WidenUntouched(before: map<string, bool>, middle: map<string, bool>, after: map<string, bool>,
                       id: PhysicalId, changed: seq<LogicalCore>, cores: seq<LogicalCore>)
    requires Untouched(before, middle, cores) && Untouched(middle, after, changed) && Group(id, changed, cores)
    ensures Untouched(before, after, cores)
  {
    forall c | c in changed ensures c in cores {
    }
    forall key | key in before && forall i :: 0 <= i < |cores| ==> cores[i].id != key
      ensures after[key] == before[key]
    {
      forall k | 0 <= k < |changed| ensures changed[k].id != key {
        assert changed[k] in cores;
      }
    }
  }

  /** The loop of main that switches off, for the groups in any order. It stops at a missing file. */
  method DisableAll(sys: Sysfs, groups: seq<PhysicalCore>, ghost cores: seq<LogicalCore>) returns (ok: bool)
    requires DistinctIds(cores) && Grouped(groups, cores)
    requires forall g :: g in groups ==> AsFound(sys.online, g.cores)
    modifies sys
    ensures ok <==> forall g :: g in groups ==> Writable(old(sys.online).Keys, g.cores)
    ensures ok ==> forall g :: g in groups ==> OnlyFirst(sys.online, g.cores)
    ensures forall g :: g in groups ==> FirstKept(sys.online, g.cores)
    ensures Untouched(old(sys.online), sys.online, cores)
  {
    hide AsFound, OnlyFirst, Untouched, Group, Writable, StoppedAt, FirstKept;
    Same(sys.online, cores);
    for k := 0 to |groups|
      invariant Untouched(old(sys.online), sys.online, cores)
      invariant forall i :: 0 <= i < k ==> OnlyFirst(sys.online, groups[i].cores)
      invariant forall i :: 0 <= i < k ==> Writable(old(sys.online).Keys, groups[i].cores)
      invariant forall i :: k <= i < |groups| ==> AsFound(sys.online, groups[i].cores)
    {
      ghost var before := sys.online;
      var g := groups[k];
      GroupFacts(g.id, g.cores, cores);
      ok := g.DisableSmt(sys);
      WidenUntouched(old(sys.online), before, sys.online, g.id, g.cores, cores);
      SameKeys(old(sys.online), before, cores);
      forall i | 0 <= i < |groups| && i != k
        ensures AsFound(before, groups[i].cores) ==> AsFound(sys.online, groups[i].cores)
        ensures OnlyFirst(before, groups[i].cores) ==> OnlyFirst(sys.online, groups[i].cores)
      {
        OtherGroup(before, sys.online, cores, g.id, g.cores, groups[i].id, groups[i].cores);
      }
      if !ok {
        forall h | h in groups ensures FirstKept(sys.online, h.cores) {
          Kept(sys.online, h.id, h.cores, cores);
        }
        return;
      }
    }
    ok := true;
    forall h | h in groups ensures FirstKept(sys.online, h.cores) {
      Kept(sys.online, h.id, h.cores, cores);
    }
  }

  lemma SameKeys(before: map<string, bool>, after: map<string, bool>, cores: seq<LogicalCore>)
    requires Untouched(before, after, cores)
    ensures before.Keys == after.Keys
  {
  }

  lemma GroupFacts(id: PhysicalId, members: seq<LogicalCore>, cores: seq<LogicalCore>)
    requires Group(id, members, cores)
    ensures members != [] && DistinctIds(members)
  {
  }

  lemma Kept(online: map<string, bool>, id: PhysicalId, members: seq<LogicalCore>, cores: seq<LogicalCore>)
    requires Group(id, members, cores)
    requires AsFound(online, members) || OnlyFirst(online, members) || exists n :: StoppedAt(online, members, n)
    ensures FirstKept(online, members)
  {
  }

  /** The loop of main that switches on. */
  method EnableAll(sys: Sysfs, groups: seq<PhysicalCore>, ghost cores: seq<LogicalCore>)
    requires DistinctIds(cores) && Grouped(groups, cores)
    requires forall g :: g in groups ==> AsFound(sys.online, g.cores)
    modifies sys
    ensures forall g :: g in groups ==> AllUp(sys.online, g.cores)
    ensures Untouched(old(sys.online), sys.online, cores)
  {
    hide AsFound, AllUp, Untouched, Group;
    Same(sys.online, cores);
    for k := 0 to |groups|
      invariant Untouched(old(sys.online), sys.online, cores)
      invariant forall i :: 0 <= i < k ==> AllUp(sys.online, groups[i].cores)
      invariant forall i :: k <= i < |groups| ==> AsFound(sys.online, groups[i].cores)
    {
      ghost var before := sys.online;
      var g := groups[k];
      GroupFacts(g.id, g.cores, cores);
      g.EnableSmt(sys);
      WidenUntouched(old(sys.online), before, sys.online, g.id, g.cores, cores);
      forall i | 0 <= i < |groups| && i != k
        ensures AsFound(before, groups[i].cores) ==> AsFound(sys.online, groups[i].cores)
        ensures AllUp(before, groups[i].cores) ==> AllUp(sys.online, groups[i].cores)
      {
        OtherGroup(before, sys.online, cores, g.id, g.cores, groups[i].id, groups[i].cores);
      }
    }
  }

  /** After the print, the first core of a group is the least of its physical id. */
  lemma FirstIsLeast(id: PhysicalId, members: seq<LogicalCore>, cores: seq<LogicalCore>, c: LogicalCore)
    requires Group(id, members, cores) && Ordered(members, CoreKey, LexLeq)
    requires c in members
    ensures IsLeast(cores, c) <==> c == members[0]
  {
    var first := members[0];
    forall d | d in cores && d.physicalId == id ensures LexLeq(first.id, d.id) {
      var i :| 0 <= i < |members| && members[i] == d;
      LexTotal(first.id, first.id);
      assert i > 0 ==> LexLeq(CoreKey(members[0]), CoreKey(members[i]));
    }
    if IsLeast(cores, c) {
      LexTotal(c.id, first.id);
      assert first in members;
      SameCore(members, c, first);
    }
  }

  /** Only cores other than the least of their physical id are written when switching off. */
  ghost predicate FilesThere(files: set<string>, cores: seq<LogicalCore>) {
    forall c :: c in cores && c.online && !IsLeast(cores, c) ==> c.id in files
  }

  lemma GroupWritable(files: set<string>, id: PhysicalId, members: seq<LogicalCore>, cores: seq<LogicalCore>)
    requires Group(id, members, cores) && Ordered(members, CoreKey, LexLeq)
    ensures Writable(files, members) <==>
            forall c :: c in cores && c.physicalId == id && c.online && !IsLeast(cores, c) ==> c.id in files
  {
    hide IsLeast, Ordered;
    forall c | c in members ensures IsLeast(cores, c) <==> c == members[0] {
      FirstIsLeast(id, members, cores, c);
    }
    forall i | 1 <= i < |members| ensures members[i] != members[0] && members[i] in members {
    }
  }

  lemma GroupSwitched(online: map<string, bool>, id: PhysicalId, members: seq<LogicalCore>,
                      cores: seq<LogicalCore>, c: LogicalCore)
    requires Group(id, members, cores) && Ordered(members, CoreKey, LexLeq)
    requires c in cores && c.physicalId == id
    ensures OnlyFirst(online, members) ==> (Up(online, c.id) <==> IsLeast(cores, c))
    ensures FirstKept(online, members) && c.online && IsLeast(cores, c) ==> Up(online, c.id)
    ensures AllUp(online, members) ==> Up(online, c.id)
  {
    hide IsLeast, Ordered;
    FirstIsLeast(id, members, cores, c);
    var i :| 0 <= i < |members| && members[i] == c;
    assert i == 0 <==> c == members[0];
  }

  lemma GroupAsFound(online: map<string, bool>, id: PhysicalId, members: seq<LogicalCore>, cores: seq<LogicalCore>)
    requires Group(id, members, cores) && AsFound(online, cores)
    ensures AsFound(online, members)
  {
    forall k | 0 <= k < |members| ensures Up(online, members[k].id) <==> members[k].online {
      assert members[k] in cores;
    }
  }

  /** No core with the same physical id has an id string before that of c. */
  ghost predicate NoneBefore(cores: seq<LogicalCore>, c: LogicalCore) {
    forall d :: d in cores && d.physicalId == c.physicalId ==> !Before(d.id, c.id)
  }

  lemma LeastExactly(cores: seq<LogicalCore>, c: LogicalCore)
    ensures IsLeast(cores, c) <==> NoneBefore(cores, c)
  {
    hide Before;
    forall d | d in cores && d.physicalId == c.physicalId ensures LexLeq(c.id, d.id) <==> !Before(d.id, c.id) {
      LexTotal(c.id, d.id);
      LexExactly(d.id, c.id);
      LexExactly(c.id, d.id);
      if Before(d.id, c.id) {
        LexOfBefore(d.id, c.id);
      }
    }
  }

  /** Of two siblings that differ first in a character, the one with the larger character goes off. */
  lemma LargerGoesOff(cores: seq<LogicalCore>, online: map<string, bool>, c: LogicalCore, d: LogicalCore,
                      p: string, x: char, u: string, y: char, v: string)
    requires forall e :: e in cores ==> (Up(online, e.id) <==> NoneBefore(cores, e))
    requires c in cores && d in cores && c.physicalId == d.physicalId
    requires x < y && c.id == p + [x] + u && d.id == p + [y] + v
    ensures !Up(online, d.id)
  {
    var n := |p|;
    assert c.id[..n] == p == d.id[..n];
    assert c.id[n] == x && d.id[n] == y;
    assert Before(c.id, d.id);
  }

  /** The run of main. Switching off leaves online exactly the core with the least id string of every
      physical id, unless another online core has no file: then the run stops, and no least core that
      was online has gone off. */
  method Toggle(sys: Sysfs, cores: seq<LogicalCore>, choice: string) returns (ok: bool)
    requires Parsed(cores) && AsFound(sys.online, cores)
    modifies sys
    ensures choice == "d" ==> (ok <==> FilesThere(old(sys.online).Keys, cores))
    ensures choice == "d" && ok ==> forall c :: c in cores ==> (Up(sys.online, c.id) <==> IsLeast(cores, c))
    ensures choice == "d" && ok ==> forall c :: c in cores ==> (Up(sys.online, c.id) <==> NoneBefore(cores, c))
    ensures choice == "d" ==> forall c :: c in cores && c.online && IsLeast(cores, c) ==> Up(sys.online, c.id)
    ensures choice == "e" ==> ok && forall c :: c in cores ==> Up(sys.online, c.id)
    ensures choice !in {"d", "e"} ==> ok && sys.online == old(sys.online)
    ensures Untouched(old(sys.online), sys.online, cores)
  {
    hide IsLeast, NoneBefore, Ordered, AsFound, OnlyFirst, AllUp, FirstKept, Untouched, Writable, Group;
    var groups := SortedGroups(cores);
    PrintAll(groups, cores);
    Same(sys.online, cores);
    forall g | g in groups ensures AsFound(sys.online, g.cores) {
      GroupAsFound(sys.online, g.id, g.cores, cores);
    }
    ok := true;
    if choice == "e" {
      EnableAll(sys, groups, cores);
    } else if choice == "d" {
      ok := DisableAll(sys, groups, cores);
    }
    forall g | g in groups
      ensures Writable(old(sys.online).Keys, g.cores) <==>
              forall c :: c in cores && c.physicalId == g.id && c.online && !IsLeast(cores, c) ==>
                c.id in old(sys.online)
    {
      GroupWritable(old(sys.online).Keys, g.id, g.cores, cores);
    }
    forall c | c in cores
      ensures choice == "d" && ok ==> (Up(sys.online, c.id) <==> IsLeast(cores, c))
      ensures IsLeast(cores, c) <==> NoneBefore(cores, c)
      ensures choice == "d" && c.online && IsLeast(cores, c) ==> Up(sys.online, c.id)
      ensures choice == "e" ==> Up(sys.online, c.id)
    {
      LeastExactly(cores, c);
      var g :| g in groups && g.id == c.physicalId;
      GroupSwitched(sys.online, g.id, g.cores, cores, c);
    }
  }

  // ---------- what is left online ----------

  ghost function UpCores(online: map<string, bool>, cores: seq<LogicalCore>): set<LogicalCore> {
    set c | c in cores && Up(online, c.id)
  }

  ghost function UpWith(online: map<string, bool>, cores: seq<LogicalCore>, pid: PhysicalId): set<LogicalCore> {
    set c | c in cores && c.physicalId == pid && Up(online, c.id)
  }

  /** Every physical id that occurs has exactly one least core. */
  lemma OneLeast(cores: seq<LogicalCore>, pid: PhysicalId) returns (least: LogicalCore)
    requires DistinctIds(cores) && pid in Ids(cores)
    ensures least in cores && least.physicalId == pid && IsLeast(cores, least)
    ensures forall c :: c in cores && c.physicalId == pid && IsLeast(cores, c) ==> c == least
  {
    LexOrder();
    IsGroup(cores, pid);
    var members := Members(cores, pid);
    var sorted := Sort(members, CoreKey, LexLeq);
    Reordered(members, sorted);
    assert Group(pid, sorted, cores);
    least := sorted[0];
    assert least in sorted;
    forall c | c in sorted ensures IsLeast(cores, c) <==> c == least {
      FirstIsLeast(pid, sorted, cores, c);
    }
  }

  lemma {:induction false} OnePerId(s: set<LogicalCore>, ids: seq<PhysicalId>)
    requires forall i, j :: 0 <= i < j < |ids| ==> ids[i] != ids[j]
    requires forall c :: c in s ==> c.physicalId in ids
    requires forall c, d :: c in s && d in s && c.physicalId == d.physicalId ==> c == d
    requires forall pid :: pid in ids ==> exists c :: c in s && c.physicalId == pid
    ensures |s| == |ids|
  {
    if ids == [] {
      assert s == {};
    } else {
      var t, pid := ids[..|ids| - 1], ids[|ids| - 1];
      assert ids == t + [pid];
      assert pid in ids;
      var c :| c in s && c.physicalId == pid;
      forall other | other in t ensures exists d :: d in s - {c} && d.physicalId == other {
        assert other in ids && other != pid;
        var d :| d in s && d.physicalId == other;
        assert d in s - {c};
      }
      OnePerId(s - {c}, t);
    }
  }

  /** After a successful switch-off exactly one core is online per physical id that occurs, and so as
      many cores as there are ids. On a machine with every core online these are the physical cores. */
  lemma OneCorePerId(online: map<string, bool>, cores: seq<LogicalCore>)
    requires DistinctIds(cores)
    requires forall c :: c in cores ==> (Up(online, c.id) <==> IsLeast(cores, c))
    ensures forall pid :: pid in Ids(cores) ==> |UpWith(online, cores, pid)| == 1
    ensures |UpCores(online, cores)| == |Ids(cores)|
  {
    hide IsLeast;
    var up := UpCores(online, cores);
    IdsDistinct(cores);
    forall pid | pid in Ids(cores)
      ensures |UpWith(online, cores, pid)| == 1
      ensures exists c :: c in up && c.physicalId == pid
      ensures forall c, d :: c in up && d in up && c.physicalId == pid && d.physicalId == pid ==> c == d
    {
      var least := OneLeast(cores, pid);
      assert UpWith(online, cores, pid) == {least};
      assert least in up;
    }
    forall c | c in up ensures c.physicalId in Ids(cores) {
      IdOccurs(cores, c);
    }
    OnePerId(up, Ids(cores));
  }

  /** A switch-off turns a core on exactly when some core was offline: all offline cores share the
      unknown id, and the least of them is enabled. */
  lemma SwitchedOnExactly(cores: seq<LogicalCore>)
    requires Parsed(cores)
    ensures (exists c :: c in cores && !c.online && IsLeast(cores, c)) <==> (exists c :: c in cores && !c.online)
  {
    if c :| c in cores && !c.online {
      hide IsLeast;
      IdOccurs(cores, c);
      var least := OneLeast(cores, Unknown);
      assert least in cores && !least.online;
    }
  }

  /** What a second run finds after the first has switched SMT off. */
  ghost predicate FoundAgain(cores: seq<LogicalCore>, again: seq<LogicalCore>) {
    && |again| == |cores|
    && (forall i :: 0 <= i < |cores| ==>
          again[i] == if IsLeast(cores, cores[i]) then cores[i] else LogicalCore(cores[i].id, false, Unknown))
  }

  /** A second switch-off on a machine that had every core online keeps the cores the first one left
      and switches the least of the others back on. */
  lemma SecondRun(cores: seq<LogicalCore>, again: seq<LogicalCore>, c: LogicalCore)
    requires Parsed(cores) && (forall d :: d in cores ==> d.online) && FoundAgain(cores, again)
    requires c in again
    ensures Parsed(again)
    ensures IsLeast(again, c) <==> c.online || forall d :: d in again && !d.online ==> LexLeq(c.id, d.id)
  {
    forall i | 0 <= i < |cores| ensures again[i].online <==> again[i].physicalId.Known? {
      assert cores[i] in cores;
    }
    assert forall d :: d in again ==> (d.online <==> d.physicalId.Known?);
    forall d | d in again && d.online ensures d in cores && IsLeast(cores, d) {
    }
    if c.online {
      forall d | d in again && d.physicalId == c.physicalId ensures LexLeq(c.id, d.id) {
        assert d in cores;
      }
    }
  }

  function IdSet(ids: seq<PhysicalId>): set<PhysicalId> {
    set pid | pid in ids
  }

  lemma {:induction false} DistinctSize(ids: seq<PhysicalId>)
    requires forall i, j :: 0 <= i < j < |ids| ==> ids[i] != ids[j]
    ensures |IdSet(ids)| == |ids|
  {
    if ids == [] {
      assert IdSet(ids) == {};
    } else {
      var t, pid := ids[..|ids| - 1], ids[|ids| - 1];
      DistinctSize(t);
      assert ids == t + [pid];
      assert IdSet(ids) == IdSet(t) + {pid};
    }
  }

  lemma IdsSize(cores: seq<LogicalCore>)
    ensures |IdSet(Ids(cores))| == |Ids(cores)|
    ensures forall pid :: pid in IdSet(Ids(cores)) <==> exists c :: c in cores && c.physicalId == pid
  {
    IdsDistinct(cores);
    DistinctSize(Ids(cores));
    forall pid ensures pid in Ids(cores) <==> exists c :: c in cores && c.physicalId == pid {
      MembersExist(cores, pid);
      if Members(cores, pid) != [] {
        Partition(cores, pid, Members(cores, pid)[0]);
      }
      if c :| c in cores && c.physicalId == pid {
        Partition(cores, pid, c);
      }
    }
  }

  lemma AgainIds(cores: seq<LogicalCore>, again: seq<LogicalCore>)
    requires Parsed(cores) && (forall d :: d in cores ==> d.online) && FoundAgain(cores, again)
    ensures IdSet(Ids(again))
         == IdSet(Ids(cores)) + if exists c :: c in cores && !IsLeast(cores, c) then {Unknown} else {}
    ensures Unknown !in IdSet(Ids(cores))
  {
    IdsSize(cores);
    IdsSize(again);
    hide IsLeast, Ids, IdSet;
    forall pid | pid in IdSet(Ids(cores)) ensures pid in IdSet(Ids(again)) {
      var c :| c in cores && c.physicalId == pid;
      IdOccurs(cores, c);
      var least := OneLeast(cores, pid);
      var i :| 0 <= i < |cores| && cores[i] == least;
      assert again[i] in again;
    }
    forall pid | pid in IdSet(Ids(again)) && pid != Unknown ensures pid in IdSet(Ids(cores)) {
      var c :| c in again && c.physicalId == pid;
      assert c in cores;
    }
    if c :| c in cores && !IsLeast(cores, c) {
      var i :| 0 <= i < |cores| && cores[i] == c;
      assert again[i] in again && again[i].physicalId == Unknown;
    }
    if Unknown in IdSet(Ids(again)) {
      var c :| c in again && c.physicalId == Unknown;
      var i :| 0 <= i < |again| && again[i] == c;
      assert cores[i] in cores && !IsLeast(cores, cores[i]);
    }
  }

  /** So the second switch-off leaves one core more online than there are physical cores, unless the
      first one had nothing to switch off. */
  lemma SecondRunCount(cores: seq<LogicalCore>, again: seq<LogicalCore>, online: map<string, bool>)
    requires Parsed(cores) && (forall d :: d in cores ==> d.online) && FoundAgain(cores, again)
    requires forall c :: c in again ==> (Up(online, c.id) <==> IsLeast(again, c))
    ensures |UpCores(online, again)|
         == |Ids(cores)| + if exists c :: c in cores && !IsLeast(cores, c) then 1 else 0
  {
    hide IsLeast, Ids;
    OneCorePerId(online, again);
    IdsSize(cores);
    IdsSize(again);
    hide IdSet, UpCores;
    AgainIds(cores, again);
  }

  /** An id that is not "0" and has no leading character below '0' comes after "0": the boot core, which
      has no file, is the least of its group and is never written. */
  lemma BootCoreNotWritten(files: set<string>, cores: seq<LogicalCore>)
    requires forall c :: c in cores ==> c.id != "" && '0' <= c.id[0] <= '9'
    requires forall c :: c in cores && c.id != "0" ==> c.id in files
    ensures FilesThere(files, cores)
  {
    forall c | c in cores && c.id == "0" ensures IsLeast(cores, c) {
      forall d | d in cores && d.physicalId == c.physicalId ensures LexLeq(c.id, d.id) {
        assert LexLeq("", d.id[1..]);
      }
    }
  }
}
