/** Every run of the sorted list conforms to the timer specification. */
module ListRun {
  import opened TimerSpec
  import opened Sequences
  import opened SortedList

  /** The nodes are exactly the live timers; `held` are the pointers the callers keep. */
  ghost predicate Tracks(s: seq<UtilTimer>, live: Live, held: map<int, UtilTimer>)
    reads s`expire
  {
    && (forall n | n in s :: n.user in live && n.expire == live[n.user] && n.user in held && held[n.user] == n)
    && (forall id | id in live :: id in held && held[id] in s && held[id].user == id)
  }

  ghost predicate Holds(l: SortTimerLst, live: Live, held: map<int, UtilTimer>)
    reads l, l.nodes
  {
    l.Valid() && Tracks(l.nodes, live, held)
  }

  function Users(s: seq<UtilTimer>): (r: seq<int>)
    ensures |r| == |s| && forall i | 0 <= i < |s| :: r[i] == s[i].user
  {
    seq(|s|, i requires 0 <= i < |s| => s[i].user)
  }

  lemma TracksAfterAdd(s: seq<UtilTimer>, k: nat, t: UtilTimer, live: Live, held: map<int, UtilTimer>)
    requires Tracks(s, live, held) && k <= |s| && t.user !in live
    ensures Tracks(InsertAt(s, k, t), Apply(live, Add(t.user, t.expire)), held[t.user := t])
    ensures forall n | n in InsertAt(s, k, t) :: n in s || n == t
  {
    var s' := InsertAt(s, k, t);
    assert s'[k] == t;
    forall n | n in s ensures n in s' {
      var i :| 0 <= i < |s| && s[i] == n;
      assert s'[if i < k then i else i + 1] == n;
    }
  }

  lemma TracksAfterDel(s: seq<UtilTimer>, k: nat, live: Live, held: map<int, UtilTimer>)
    requires Tracks(s, live, held) && Distinct(s) && k < |s|
    ensures Tracks(Without(s, k), Apply(live, Del(s[k].user)), held)
  {
    RemovalLeaves(s, k);
    assert s[k] in s;
  }

  lemma SplitByDeadline(s: seq<UtilTimer>, f: seq<UtilTimer>, rest: seq<UtilTimer>, cur: int)
    requires s == f + rest
    requires (forall t | t in f :: t.expire <= cur) && (forall t | t in rest :: cur < t.expire)
    ensures forall i | 0 <= i < |s| :: i < |f| <==> s[i].expire <= cur
  {
    forall i | 0 <= i < |s| ensures i < |f| <==> s[i].expire <= cur {
      assert if i < |f| then s[i] in f else s[i] in rest;
    }
  }

  lemma TracksAfterTick(s: seq<UtilTimer>, n: nat, live: Live, held: map<int, UtilTimer>, cur: int)
    requires Tracks(s, live, held) && n <= |s|
    requires forall i | 0 <= i < |s| :: i < n <==> s[i].expire <= cur
    ensures Tracks(s[n..], Apply(live, Tick(cur)), held)
  {
    forall t | t in s[n..] ensures t in s && cur < t.expire {
      var i :| 0 <= i < |s[n..]| && s[n..][i] == t;
      assert s[n + i] == t;
    }
    forall id | id in live && cur < live[id] ensures held[id] in s[n..] {
      var i :| 0 <= i < |s| && s[i] == held[id];
      assert s[n..][i - n] == held[id];
    }
  }

  /** Splitting the nodes in front of the first deadline after `cur` fires what the specification allows. */
  lemma PrefixFires(s: seq<UtilTimer>, n: nat, live: Live, held: map<int, UtilTimer>, cur: int)
    requires Tracks(s, live, held) && Distinct(s) && SortedNodes(s) && n <= |s|
    requires forall i | 0 <= i < |s| :: i < n <==> s[i].expire <= cur
    ensures FiringAt(live, cur, Users(s[..n]))
  {
    var f := Users(s[..n]);
    forall i | 0 <= i < n ensures f[i] == s[i].user && f[i] in live && held[f[i]] == s[i] && live[f[i]] == s[i].expire {
      assert s[i] in s;
    }
    forall id ensures id in f <==> id in live && live[id] <= cur {
      if id in live && live[id] <= cur {
        var i :| 0 <= i < |s| && s[i] == held[id];
        assert f[i] == id;
      }
    }
  }

  lemma TickTracks(s: seq<UtilTimer>, f: seq<UtilTimer>, rest: seq<UtilTimer>, live: Live,
                   held: map<int, UtilTimer>, cur: int)
    requires Tracks(s, live, held) && Distinct(s) && SortedNodes(s)
    requires |f| <= |s| && f == s[..|f|] && rest == s[|f|..]
    requires (forall t | t in f :: t.expire <= cur) && (forall t | t in rest :: cur < t.expire)
    ensures Tracks(rest, Apply(live, Tick(cur)), held) && FiringAt(live, cur, Users(f))
  {
    SplitByDeadline(s, f, rest, cur);
    TracksAfterTick(s, |f|, live, held, cur);
    PrefixFires(s, |f|, live, held, cur);
  }

  method StepAdd(l: SortTimerLst, ghost live: Live, held: map<int, UtilTimer>, id: int, expire: int)
    returns (held': map<int, UtilTimer>)
    requires Holds(l, live, held) && id !in live
    modifies l, l.nodes`prev, l.nodes`next
    ensures Holds(l, Apply(live, Add(id, expire)), held')
    ensures forall n | n in l.nodes :: n in old(l.nodes) || fresh(n)
  {
    var t := new UtilTimer(id, expire);
    ghost var k := l.AddTimer(t);
    held' := held[id := t];
    TracksAfterAdd(old(l.nodes), k, t, live, held);
  }

  method StepDel(l: SortTimerLst, ghost live: Live, held: map<int, UtilTimer>, id: int)
    requires Holds(l, live, held) && id in live
    modifies l, l.nodes`prev, l.nodes`next
    ensures Holds(l, Apply(live, Del(id)), held)
    ensures forall n | n in l.nodes :: n in old(l.nodes)
  {
    ghost var k :| 0 <= k < |l.nodes| && l.nodes[k] == held[id];
    TracksAfterDel(l.nodes, k, live, held);
    l.DelTimer(held[id], k);
  }

  method StepTick(l: SortTimerLst, ghost live: Live, held: map<int, UtilTimer>, cur: int) returns (fired: seq<int>)
    requires Holds(l, live, held)
    modifies l, l.nodes`prev, l.nodes`next
    ensures Holds(l, Apply(live, Tick(cur)), held) && FiringAt(live, cur, fired)
    ensures forall n | n in l.nodes :: n in old(l.nodes)
  {
    var f := l.Tick(cur);
    fired := Users(f);
    TickTracks(old(l.nodes), f, l.nodes, live, held, cur);
  }

  method Step(l: SortTimerLst, ghost live: Live, held: map<int, UtilTimer>, op: Op)
    returns (held': map<int, UtilTimer>, fired: seq<int>)
    requires Holds(l, live, held)
    requires op.Add? ==> op.id !in live
    requires op.Del? ==> op.id in live
    modifies l, l.nodes`prev, l.nodes`next
    ensures Holds(l, Apply(live, op), held') && FiresOn(live, op, fired)
    ensures forall n | n in l.nodes :: n in old(l.nodes) || fresh(n)
  {
    held', fired := held, [];
    match op
    case Add(id, expire) => held' := StepAdd(l, live, held, id, expire);
    case Del(id) => StepDel(l, live, held, id);
    case Tick(cur) => fired := StepTick(l, live, held, cur);
  }

  /** The users still in the list, found by walking the links. */
  method CollectUsers(l: SortTimerLst) returns (users: set<int>)
    requires l.Valid()
    ensures users == set n | n in l.nodes :: n.user
  {
    users := {};
    var n := l.head;
    ghost var i := 0;
    while n != null
      invariant 0 <= i <= |l.nodes| && n == NodeAt(l.nodes, i)
      invariant users == set n | n in l.nodes[..i] :: n.user
      decreases |l.nodes| - i
    {
      assert l.nodes[..i + 1] == l.nodes[..i] + [n];
      users := users + {n.user};
      n := n.next;
      i := i + 1;
    }
    assert l.nodes[..i] == l.nodes;
  }

  lemma HoldsExactlyTheLive(l: SortTimerLst, live: Live, held: map<int, UtilTimer>)
    requires Holds(l, live, held)
    ensures (set n | n in l.nodes :: n.user) == live.Keys
  {
    forall id | id in live ensures id in set n | n in l.nodes :: n.user {
      assert held[id] in l.nodes && held[id].user == id;
    }
  }

  /** For every legal sequence of operations, the list fires and keeps what the specification says. */
  method RunList(ops: seq<Op>) returns (log: seq<seq<int>>, left: set<int>)
    requires Legal(ops)
    ensures Conforms(ops, log, left)
  {
    var l := new SortTimerLst();
    var held: map<int, UtilTimer> := map[];
    log := [];
    for k := 0 to |ops|
      invariant fresh(l) && forall n | n in l.nodes :: fresh(n)
      invariant Holds(l, LiveAfter(ops[..k]), held)
      invariant |log| == k && LogConforms(ops, log)
    {
      NewIdIsUnused(ops, k);
      LiveStep(ops, k);
      var fired;
      held, fired := Step(l, LiveAfter(ops[..k]), held, ops[k]);
      LogExtends(ops, log, fired);
      log := log + [fired];
    }
    assert ops[..|ops|] == ops;
    left := CollectUsers(l);
    HoldsExactlyTheLive(l, LiveAfter(ops), held);
  }
}
