/** Every run of the lazily deleting heap conforms to the timer specification, and hence agrees with the list. */
module HeapRun {
  import opened TimerSpec
  import opened TimeHeap
  import ListRun

  /**
   * The heap holds every live timer, armed, and possibly deleted ones, disarmed. `held` are the pointers of all
   * timers ever added.
   */
  ghost predicate Tracks(s: seq<HeapTimer>, live: Live, held: map<int, HeapTimer>)
    reads s`armed
  {
    && (forall t | t in s :: multiset(s)[t] == 1)
    && (forall t | t in s :: t.user in held && held[t.user] == t)
    && (forall t | t in s :: t.armed == (t.user in live))
    && (forall t | t in s && t.armed :: live[t.user] == t.expire)
    && (forall id | id in live :: id in held && held[id] in s && held[id].user == id)
  }

  ghost predicate Holds(h: TimeHeap, live: Live, held: map<int, HeapTimer>)
    reads h, h.arr, h.elems
  {
    h.Valid() && h.capacity > 0 && Tracks(h.elems, live, held)
  }

  function Users(s: seq<HeapTimer>): (r: seq<int>)
    ensures |r| == |s| && forall i | 0 <= i < |s| :: r[i] == s[i].user
  {
    seq(|s|, i requires 0 <= i < |s| => s[i].user)
  }

  lemma TracksAfterAdd(s: seq<HeapTimer>, s': seq<HeapTimer>, t: HeapTimer, live: Live, held: map<int, HeapTimer>)
    requires Tracks(s, live, held) && t.armed && t.user !in held
    requires multiset(s') == multiset(s) + multiset{t}
    ensures Tracks(s', Apply(live, Add(t.user, t.expire)), held[t.user := t])
    ensures forall u | u in s' :: u in s || u == t
  {
    assert t !in s;
    forall u: HeapTimer ensures u in s' <==> u in s || u == t {
      assert u in multiset(s') <==> u in multiset(s) || u == t;
    }
  }

  lemma TracksAfterTick(s: seq<HeapTimer>, s': seq<HeapTimer>, live: Live, held: map<int, HeapTimer>, cur: int)
    requires Tracks(s, live, held)
    requires forall t: HeapTimer :: multiset(s')[t] == if cur < t.expire then multiset(s)[t] else 0
    ensures Tracks(s', Apply(live, Tick(cur)), held)
    ensures forall t | t in s' :: t in s
  {
    forall t: HeapTimer ensures t in s' <==> t in s && cur < t.expire {
      assert t in multiset(s') <==> t in s';
      assert t in multiset(s) <==> t in s;
    }
  }

  lemma TwiceCounts(s: seq<HeapTimer>, i: nat, j: nat)
    requires i < j < |s| && s[i] == s[j]
    ensures multiset(s)[s[i]] >= 2
  {
    assert s == s[..i] + [s[i]] + s[i + 1..j] + [s[j]] + s[j + 1..];
  }

  lemma OnceEachIsDistinct(s: seq<HeapTimer>)
    requires forall t | t in s :: multiset(s)[t] == 1
    ensures forall i, j | 0 <= i < j < |s| :: s[i] != s[j]
  {
    forall i, j | 0 <= i < j < |s| && s[i] == s[j] ensures multiset(s)[s[i]] >= 2 {
      TwiceCounts(s, i, j);
    }
  }

  /** The armed timers that are due fire as the specification allows. */
  lemma ArmedDueFires(s: seq<HeapTimer>, f: seq<HeapTimer>, live: Live, held: map<int, HeapTimer>, cur: int)
    requires Tracks(s, live, held) && InDeadlineOrder(f)
    requires forall t: HeapTimer :: multiset(f)[t] == if t.armed && t.expire <= cur then multiset(s)[t] else 0
    ensures FiringAt(live, cur, Users(f))
  {
    forall t: HeapTimer ensures t in f <==> t in s && t.armed && t.expire <= cur {
      assert t in multiset(f) <==> t in f;
      assert t in multiset(s) <==> t in s;
    }
    OnceEachIsDistinct(f);
    var u := Users(f);
    forall i | 0 <= i < |f| ensures u[i] in live && held[u[i]] == f[i] && live[u[i]] == f[i].expire <= cur {
      assert f[i] in f;
    }
    forall id ensures id in u <==> id in live && live[id] <= cur {
      if id in live && live[id] <= cur {
        assert held[id] in f;
        var i :| 0 <= i < |f| && f[i] == held[id];
        assert u[i] == id;
      }
    }
  }

  method Put(h: TimeHeap, ghost live: Live, ghost held: map<int, HeapTimer>, t: HeapTimer)
    requires Holds(h, live, held) && t.armed && t.user !in held
    modifies h, h.arr
    ensures Holds(h, Apply(live, Add(t.user, t.expire)), held[t.user := t])
    ensures h.arr == old(h.arr) || fresh(h.arr)
    ensures forall u | u in h.elems :: u in old(h.elems) || u == t
  {
    ghost var elems := h.elems;
    h.AddTimer(t);
    TracksAfterAdd(elems, h.elems, t, live, held);
  }

  method StepAdd(h: TimeHeap, ghost live: Live, held: map<int, HeapTimer>, id: int, now: int, delay: int)
    returns (held': map<int, HeapTimer>)
    requires Holds(h, live, held) && id !in held
    modifies h, h.arr
    ensures Holds(h, Apply(live, Add(id, now + delay)), held') && held'.Keys == held.Keys + {id}
    ensures h.arr == old(h.arr) || fresh(h.arr)
    ensures forall t | t in h.elems :: t in old(h.elems) || fresh(t)
  {
    var t := new HeapTimer(id, now, delay);
    Put(h, live, held, t);
    held' := held[id := t];
  }

  method StepDel(h: TimeHeap, ghost live: Live, held: map<int, HeapTimer>, id: int)
    requires Holds(h, live, held) && id in live
    modifies h.elems`armed
    ensures Holds(h, Apply(live, Del(id)), held)
    ensures h.arr == old(h.arr) && h.elems == old(h.elems)
  {
    h.DelTimer(held[id]);
  }

  method StepTick(h: TimeHeap, ghost live: Live, held: map<int, HeapTimer>, cur: int) returns (fired: seq<int>)
    requires Holds(h, live, held)
    modifies h, h.arr
    ensures Holds(h, Apply(live, Tick(cur)), held) && FiringAt(live, cur, fired)
    ensures h.arr == old(h.arr) && forall t | t in h.elems :: t in old(h.elems)
  {
    var f := h.Tick(cur);
    fired := Users(f);
    ArmedDueFires(old(h.elems), f, live, held, cur);
    TracksAfterTick(old(h.elems), h.elems, live, held, cur);
  }

  method Step(h: TimeHeap, ghost live: Live, held: map<int, HeapTimer>, op: Op)
    returns (held': map<int, HeapTimer>, fired: seq<int>)
    requires Holds(h, live, held)
    requires op.Add? ==> op.id !in held
    requires op.Del? ==> op.id in live
    modifies h, h.arr, h.elems`armed
    ensures Holds(h, Apply(live, op), held') && FiresOn(live, op, fired)
    ensures held'.Keys == held.Keys + if op.Add? then {op.id} else {}
    ensures h.arr == old(h.arr) || fresh(h.arr)
    ensures forall t | t in h.elems :: t in old(h.elems) || fresh(t)
  {
    held', fired := held, [];
    match op
    case Add(id, expire) => held' := StepAdd(h, live, held, id, expire, 0);
    case Del(id) => StepDel(h, live, held, id);
    case Tick(cur) => fired := StepTick(h, live, held, cur);
  }

  /** The users of the timers in the heap that are still armed. */
  method CollectUsers(h: TimeHeap) returns (users: set<int>)
    requires h.Valid()
    ensures users == set t | t in h.elems && t.armed :: t.user
  {
    users := {};
    var i := 0;
    while i < h.size
      invariant 0 <= i <= h.size
      invariant users == set t | t in h.elems[..i] && t.armed :: t.user
    {
      assert h.elems[..i + 1] == h.elems[..i] + [h.elems[i]];
      if h.arr[i].armed {
        users := users + {h.arr[i].user};
      }
      i := i + 1;
    }
    assert h.elems[..i] == h.elems;
  }

  lemma HoldsExactlyTheLive(h: TimeHeap, live: Live, held: map<int, HeapTimer>)
    requires Holds(h, live, held)
    ensures (set t | t in h.elems && t.armed :: t.user) == live.Keys
  {
    forall id | id in live ensures id in set t | t in h.elems && t.armed :: t.user {
      assert held[id] in h.elems && held[id].user == id;
    }
  }

  /** The heap, the pointers and the log after the first `k` operations. */
  ghost predicate Reached(h: TimeHeap, held: map<int, HeapTimer>, log: seq<seq<int>>, ops: seq<Op>, k: nat)
    requires k <= |ops|
    reads h, h.arr, h.elems
  {
    && Holds(h, LiveAfter(ops[..k]), held) && held.Keys == Added(ops[..k])
    && |log| == k && LogConforms(ops, log)
  }

  method Advance(h: TimeHeap, held: map<int, HeapTimer>, log: seq<seq<int>>, ops: seq<Op>, k: nat)
    returns (held': map<int, HeapTimer>, log': seq<seq<int>>)
    requires Legal(ops) && k < |ops| && Reached(h, held, log, ops, k)
    modifies h, h.arr, h.elems`armed
    ensures Reached(h, held', log', ops, k + 1)
    ensures h.arr == old(h.arr) || fresh(h.arr)
    ensures forall i | 0 <= i < |h.elems| :: h.elems[i] in old(h.elems) || fresh(h.elems[i])
  {
    NewIdIsUnused(ops, k);
    LiveStep(ops, k);
    AddedStep(ops, k);
    var fired;
    held', fired := Step(h, LiveAfter(ops[..k]), held, ops[k]);
    LogExtends(ops, log, fired);
    log' := log + [fired];
    assert forall i | 0 <= i < |h.elems| :: h.elems[i] in h.elems;
  }

  /** For every legal sequence of operations, the heap fires and keeps what the specification says. */
  method RunHeap(ops: seq<Op>, capacity: nat) returns (log: seq<seq<int>>, left: set<int>)
    requires Legal(ops) && capacity > 0
    ensures Conforms(ops, log, left)
  {
    var h := new TimeHeap(capacity);
    var held: map<int, HeapTimer> := map[];
    log := [];
    for k := 0 to |ops|
      invariant fresh(h) && fresh(h.arr) && forall i | 0 <= i < |h.elems| :: fresh(h.elems[i])
      invariant Reached(h, held, log, ops, k)
    {
      held, log := Advance(h, held, log, ops, k);
    }
    assert ops[..|ops|] == ops;
    left := CollectUsers(h);
    HoldsExactlyTheLive(h, LiveAfter(ops), held);
  }

  /** The list and the heap side by side: the same timers fire at every tick, and the same are left. */
  method RunBoth(ops: seq<Op>, capacity: nat)
    returns (listLog: seq<seq<int>>, heapLog: seq<seq<int>>, listLeft: set<int>, heapLeft: set<int>)
    requires Legal(ops) && capacity > 0
    ensures |listLog| == |heapLog| == |ops| && listLeft == heapLeft
    ensures forall k | 0 <= k < |ops| :: multiset(listLog[k]) == multiset(heapLog[k])
    ensures forall k | 0 <= k < |ops| && ops[k].Tick? ::
              var live := LiveAfter(ops[..k]);
              && FiringAt(live, ops[k].cur, listLog[k]) && FiringAt(live, ops[k].cur, heapLog[k])
              && AllLive(live, listLog[k]) && AllLive(live, heapLog[k])
              && Deadlines(live, listLog[k]) == Deadlines(live, heapLog[k])
  {
    listLog, listLeft := ListRun.RunList(ops);
    heapLog, heapLeft := RunHeap(ops, capacity);
    ConformingRunsAgree(ops, listLog, listLeft, heapLog, heapLeft);
    forall k | 0 <= k < |ops| && ops[k].Tick?
      ensures FiringAt(LiveAfter(ops[..k]), ops[k].cur, listLog[k])
      ensures FiringAt(LiveAfter(ops[..k]), ops[k].cur, heapLog[k])
    {
      assert FiresOn(LiveAfter(ops[..k]), ops[k], listLog[k]) && FiresOn(LiveAfter(ops[..k]), ops[k], heapLog[k]);
    }
  }
}
