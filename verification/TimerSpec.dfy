/** What any timer container must do: keep a set of timers with deadlines, and fire the due ones in deadline order. */
module TimerSpec {

  /** The live timers, by identity, with their deadlines. */
  type Live = map<int, int>

  datatype Op = Add(id: int, expire: int) | Del(id: int) | Tick(cur: int)

  function Apply(live: Live, op: Op): (live': Live) {
    match op
    case Add(id, expire) => live[id := expire]
    case Del(id) => live - {id}
    case Tick(cur) => live - set id | id in live && live[id] <= cur
  }

  function LiveAfter(ops: seq<Op>): (live': Live) {
    if ops == [] then map[] else Apply(LiveAfter(ops[..|ops| - 1]), ops[|ops| - 1])
  }

  /** What the callers must respect: a timer object is added once, and only a timer that is still live is deleted. */
  ghost predicate Legal(ops: seq<Op>) {
    && (forall j, k | 0 <= j < k < |ops| && ops[j].Add? && ops[k].Add? :: ops[j].id != ops[k].id)
    && (forall k | 0 <= k < |ops| && ops[k].Del? :: ops[k].id in LiveAfter(ops[..k]))
  }

  function Added(ops: seq<Op>): (ids: set<int>) {
    set k | 0 <= k < |ops| && ops[k].Add? :: ops[k].id
  }

  /** `fired` lists each due timer exactly once, in non-decreasing deadline order. */
  ghost predicate FiringAt(live: Live, cur: int, fired: seq<int>) {
    && (forall i, j | 0 <= i < j < |fired| :: fired[i] != fired[j])
    && (forall id :: id in fired <==> id in live && live[id] <= cur)
    && (forall i | 0 <= i < |fired| :: fired[i] in live)
    && (forall i, j | 0 <= i < j < |fired| :: live[fired[i]] <= live[fired[j]])
  }

  /** What one operation may fire. */
  ghost predicate FiresOn(live: Live, op: Op, fired: seq<int>) {
    if op.Tick? then FiringAt(live, op.cur, fired) else fired == []
  }

  /** `log[k]` is what the k-th operation fired, so far. */
  ghost predicate LogConforms(ops: seq<Op>, log: seq<seq<int>>) {
    |log| <= |ops| && forall k | 0 <= k < |log| :: FiresOn(LiveAfter(ops[..k]), ops[k], log[k])
  }

  /** The log of a complete run, and what is live at the end. */
  ghost predicate Conforms(ops: seq<Op>, log: seq<seq<int>>, left: set<int>) {
    && |log| == |ops| && LogConforms(ops, log)
    && left == LiveAfter(ops).Keys
  }

  lemma AddedStep(ops: seq<Op>, k: nat)
    requires k < |ops|
    ensures Added(ops[..k + 1]) == Added(ops[..k]) + if ops[k].Add? then {ops[k].id} else {}
  {
    var p, q := ops[..k], ops[..k + 1];
    forall id | id in Added(p) ensures id in Added(q) {
      var j :| 0 <= j < |p| && p[j].Add? && p[j].id == id;
      assert q[j] == p[j];
    }
    if ops[k].Add? {
      assert q[k].id in Added(q);
    }
  }

  /** Only timers that were added can be live. */
  lemma {:induction false} LiveWereAdded(ops: seq<Op>)
    ensures LiveAfter(ops).Keys <= Added(ops)
  {
    if ops != [] {
      var n := |ops| - 1;
      LiveWereAdded(ops[..n]);
      AddedStep(ops, n);
      assert ops[..n + 1] == ops;
    }
  }

  lemma NewIdIsUnused(ops: seq<Op>, k: nat)
    requires Legal(ops) && k < |ops|
    ensures ops[k].Add? ==> ops[k].id !in Added(ops[..k]) && ops[k].id !in LiveAfter(ops[..k])
  {
    LiveWereAdded(ops[..k]);
  }

  lemma LogExtends(ops: seq<Op>, log: seq<seq<int>>, fired: seq<int>)
    requires |log| < |ops| && LogConforms(ops, log)
    requires FiresOn(LiveAfter(ops[..|log|]), ops[|log|], fired)
    ensures LogConforms(ops, log + [fired])
  {
  }

  lemma LiveStep(ops: seq<Op>, k: nat)
    requires k < |ops|
    ensures LiveAfter(ops[..k + 1]) == Apply(LiveAfter(ops[..k]), ops[k])
  {
    assert ops[..k + 1][..k] == ops[..k];
  }

  // ----- What conforming means, told by the operations alone

  /** Before operation `k` the timer is live since operation `j` added it: neither deleted nor due at a tick since. */
  ghost predicate LiveSince(ops: seq<Op>, id: int, expire: int, j: nat, k: nat)
    requires k <= |ops|
  {
    && j < k && ops[j] == Add(id, expire)
    && forall i | j < i < k ::
         ops[i] != Del(id) && !(ops[i].Add? && ops[i].id == id) && !(ops[i].Tick? && expire <= ops[i].cur)
  }

  lemma {:induction false} AddedBefore(ops: seq<Op>, id: int, k: nat) returns (j: nat)
    requires k <= |ops| && id in LiveAfter(ops[..k])
    ensures LiveSince(ops, id, LiveAfter(ops[..k])[id], j, k)
    decreases k
  {
    LiveStep(ops, k - 1);
    if ops[k - 1].Add? && ops[k - 1].id == id {
      j := k - 1;
    } else {
      j := AddedBefore(ops, id, k - 1);
    }
  }

  lemma {:induction false} StillLive(ops: seq<Op>, id: int, expire: int, j: nat, k: nat)
    requires k <= |ops| && LiveSince(ops, id, expire, j, k)
    ensures id in LiveAfter(ops[..k]) && LiveAfter(ops[..k])[id] == expire
    decreases k
  {
    LiveStep(ops, k - 1);
    if j < k - 1 {
      StillLive(ops, id, expire, j, k - 1);
    }
  }

  lemma LiveIff(ops: seq<Op>, id: int, k: nat)
    requires k <= |ops|
    ensures id in LiveAfter(ops[..k]) <==> exists e, j: nat :: LiveSince(ops, id, e, j, k)
  {
    if id in LiveAfter(ops[..k]) {
      var j := AddedBefore(ops, id, k);
    } else if e, j: nat :| LiveSince(ops, id, e, j, k) {
      StillLive(ops, id, e, j, k);
    }
  }

  /**
   * A tick of a conforming run fires exactly the timers that were added with a deadline up to now and neither deleted
   * nor due at a tick since; and those are left that were neither deleted nor due.
   */
  lemma ConformingFires(ops: seq<Op>, log: seq<seq<int>>, left: set<int>, id: int, k: nat)
    requires Conforms(ops, log, left) && k < |ops| && ops[k].Tick?
    ensures id in log[k] <==> exists e, j: nat :: LiveSince(ops, id, e, j, k) && e <= ops[k].cur
    ensures id in left <==> exists e, j: nat :: LiveSince(ops, id, e, j, |ops|)
  {
    assert FiresOn(LiveAfter(ops[..k]), ops[k], log[k]);
    if id in LiveAfter(ops[..k]) {
      var j := AddedBefore(ops, id, k);
    }
    if e, j: nat :| LiveSince(ops, id, e, j, k) && e <= ops[k].cur {
      StillLive(ops, id, e, j, k);
    }
    assert ops[..|ops|] == ops;
    LiveIff(ops, id, |ops|);
  }

  // ----- The specification leaves open only the order of equal deadlines

  ghost predicate AllLive(live: Live, ids: seq<int>) {
    forall i | 0 <= i < |ids| :: ids[i] in live
  }

  ghost function Deadlines(live: Live, ids: seq<int>): (r: seq<int>)
    requires AllLive(live, ids)
    ensures |r| == |ids| && forall i | 0 <= i < |ids| :: r[i] == live[ids[i]]
  {
    if ids == [] then [] else [live[ids[0]]] + Deadlines(live, ids[1..])
  }

  lemma HeadIsLeast(a: seq<int>, x: int)
    requires a != [] && x in multiset(a)
    requires forall i, j | 0 <= i < j < |a| :: a[i] <= a[j]
    ensures a[0] <= x
  {
    assert x in a;
  }

  lemma HeadsAgree(a: seq<int>, b: seq<int>)
    requires a != [] && b != [] && multiset(a) == multiset(b)
    requires forall i, j | 0 <= i < j < |a| :: a[i] <= a[j]
    requires forall i, j | 0 <= i < j < |b| :: b[i] <= b[j]
    ensures a[0] == b[0]
  {
    assert a[0] in multiset(a) && b[0] in multiset(b);
    HeadIsLeast(a, b[0]);
    HeadIsLeast(b, a[0]);
  }

  lemma TailPermutes<T>(s: seq<T>)
    requires s != []
    ensures multiset(s[1..]) == multiset(s) - multiset{s[0]}
  {
    assert s == [s[0]] + s[1..];
  }

  lemma TailsPermute(a: seq<int>, b: seq<int>)
    requires a != [] && b != [] && a[0] == b[0] && multiset(a) == multiset(b)
    ensures multiset(a[1..]) == multiset(b[1..])
  {
    TailPermutes(a);
    TailPermutes(b);
  }

  lemma PermutationsAreAsLong(a: seq<int>, b: seq<int>)
    requires multiset(a) == multiset(b)
    ensures |a| == |b|
  {
    assert |a| == |multiset(a)|;
  }

  lemma {:induction false} SortedPermutationsAreEqual(a: seq<int>, b: seq<int>)
    requires multiset(a) == multiset(b)
    requires forall i, j | 0 <= i < j < |a| :: a[i] <= a[j]
    requires forall i, j | 0 <= i < j < |b| :: b[i] <= b[j]
    ensures a == b
  {
    PermutationsAreAsLong(a, b);
    if a != [] {
      HeadsAgree(a, b);
      TailsPermute(a, b);
      SortedPermutationsAreEqual(a[1..], b[1..]);
      assert a == [a[0]] + a[1..] && b == [b[0]] + b[1..];
    }
  }

  lemma RemovingPermutes<T>(s: seq<T>, k: nat)
    requires k < |s|
    ensures multiset(s) == multiset(s[..k] + s[k + 1..]) + multiset{s[k]}
  {
    assert s == s[..k] + [s[k]] + s[k + 1..];
  }

  lemma DeadlinesOfRemaining(live: Live, g: seq<int>, k: nat)
    requires k < |g| && AllLive(live, g)
    ensures var g' := g[..k] + g[k + 1..];
            && AllLive(live, g')
            && multiset(Deadlines(live, g)) == multiset(Deadlines(live, g')) + multiset{live[g[k]]}
  {
    var g' := g[..k] + g[k + 1..];
    var d, d' := Deadlines(live, g), Deadlines(live, g');
    forall i | 0 <= i < |g'| ensures d'[i] == (d[..k] + d[k + 1..])[i] {
      assert g'[i] == g[if i < k then i else i + 1];
    }
    assert d' == d[..k] + d[k + 1..];
    RemovingPermutes(d, k);
  }

  lemma DeadlinesOfTail(live: Live, f: seq<int>)
    requires f != [] && AllLive(live, f)
    ensures multiset(Deadlines(live, f)) == multiset(Deadlines(live, f[1..])) + multiset{live[f[0]]}
  {
    TailPermutes(Deadlines(live, f));
    assert Deadlines(live, f)[1..] == Deadlines(live, f[1..]);
  }

  /** Where the head of a permutation is found, and what is left of the other one without it. */
  lemma HeadOfPermutation(f: seq<int>, g: seq<int>) returns (k: nat)
    requires f != [] && multiset(f) == multiset(g)
    ensures k < |g| && g[k] == f[0] && multiset(f[1..]) == multiset(g[..k] + g[k + 1..])
  {
    assert f[0] in multiset(f) && f[0] in multiset(g);
    k :| 0 <= k < |g| && g[k] == f[0];
    TailPermutes(f);
    RemovingPermutes(g, k);
  }

  /** Images of permutations are permutations. */
  lemma {:induction false} DeadlinesPermute(live: Live, f: seq<int>, g: seq<int>)
    requires multiset(f) == multiset(g)
    requires AllLive(live, f) && AllLive(live, g)
    ensures multiset(Deadlines(live, f)) == multiset(Deadlines(live, g))
    decreases |f|
  {
    if f == [] {
      assert |g| == |multiset(g)| == 0;
    } else {
      var k := HeadOfPermutation(f, g);
      DeadlinesOfTail(live, f);
      DeadlinesOfRemaining(live, g, k);
      DeadlinesPermute(live, f[1..], g[..k] + g[k + 1..]);
    }
  }

  lemma {:induction false} DistinctCounts(s: seq<int>, x: int)
    requires forall i, j | 0 <= i < j < |s| :: s[i] != s[j]
    ensures multiset(s)[x] == if x in s then 1 else 0
  {
    if s != [] {
      DistinctCounts(s[1..], x);
      assert s == [s[0]] + s[1..];
    }
  }

  /** Two firings of the same tick contain the same timers, with the same deadline at every position. */
  lemma FiringsAgree(live: Live, cur: int, f: seq<int>, g: seq<int>)
    requires FiringAt(live, cur, f) && FiringAt(live, cur, g)
    ensures multiset(f) == multiset(g)
    ensures Deadlines(live, f) == Deadlines(live, g)
  {
    forall x: int ensures multiset(f)[x] == multiset(g)[x] {
      DistinctCounts(f, x);
      DistinctCounts(g, x);
    }
    assert multiset(f) == multiset(g);
    DeadlinesPermute(live, f, g);
    SortedPermutationsAreEqual(Deadlines(live, f), Deadlines(live, g));
  }

  /** Observational equivalence of any two containers that conform, up to the order of equal deadlines. */
  lemma ConformingRunsAgree(ops: seq<Op>, log: seq<seq<int>>, left: set<int>, log': seq<seq<int>>, left': set<int>)
    requires Conforms(ops, log, left) && Conforms(ops, log', left')
    ensures left == left'
    ensures |log| == |log'| == |ops|
    ensures forall k | 0 <= k < |ops| :: multiset(log[k]) == multiset(log'[k])
    ensures forall k | 0 <= k < |ops| && ops[k].Tick? ::
              var live := LiveAfter(ops[..k]);
              && AllLive(live, log[k]) && AllLive(live, log'[k])
              && Deadlines(live, log[k]) == Deadlines(live, log'[k])
  {
    forall k | 0 <= k < |ops|
      ensures multiset(log[k]) == multiset(log'[k])
      ensures ops[k].Tick? ==>
                var live := LiveAfter(ops[..k]);
                && AllLive(live, log[k]) && AllLive(live, log'[k])
                && Deadlines(live, log[k]) == Deadlines(live, log'[k])
    {
      assert FiresOn(LiveAfter(ops[..k]), ops[k], log[k]) && FiresOn(LiveAfter(ops[..k]), ops[k], log'[k]);
      if ops[k].Tick? {
        FiringsAgree(LiveAfter(ops[..k]), ops[k].cur, log[k], log'[k]);
      }
    }
  }
}
