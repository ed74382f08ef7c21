/** The time wheel refines a plain countdown: every timer fires on its (ticks + 1)-th tick. */
module WheelRun {
  import opened Maps
  import opened Sequences
  import opened TimeWheel

  /** A timer is named by the index of the operation that added it. */
  datatype Op = Add(timeout: int) | Del(handle: nat) | Tick

  function Ticks(timeout: int): (n: int) {
    if timeout < 1 then 1 else timeout
  }

  /** A tick: whoever has no tick left is gone, and the others have one less. */
  ghost function CountedDown(c: map<nat, int>): (r: map<nat, int>)
    ensures forall h :: h in r <==> h in c && c[h] > 0
    ensures forall h | h in r :: r[h] == c[h] - 1
  {
    Tabulate((set h | h in c && c[h] > 0), h => if h in c then c[h] - 1 else 0)
  }

  /** What the operation with index `k` does to the ticks left. */
  ghost function Apply(c: map<nat, int>, op: Op, k: nat): (c': map<nat, int>) {
    match op
    case Add(timeout) => if timeout < 0 then c else c[k := Ticks(timeout)]
    case Del(h) => c - {h}
    case Tick => CountedDown(c)
  }

  /** The ticks left for each live timer after the operations. */
  ghost function Countdown(ops: seq<Op>): (c': map<nat, int>) {
    if ops == [] then map[] else Apply(Countdown(ops[..|ops| - 1]), ops[|ops| - 1], |ops| - 1)
  }

  function Expired(c: map<nat, int>): (ids: set<nat>) {
    set h | h in c && c[h] == 0
  }

  /** Only what `add_timer` returned is deleted: null, or a timer that is still live. */
  ghost predicate Legal(ops: seq<Op>) {
    forall k | 0 <= k < |ops| && ops[k].Del? ::
      var h := ops[k].handle;
      h < k && ops[h].Add? && (ops[h].timeout < 0 || h in Countdown(ops[..k]))
  }

  function TickCount(ops: seq<Op>): (n: nat) {
    if ops == [] then 0 else (if ops[0].Tick? then 1 else 0) + TickCount(ops[1..])
  }

  lemma {:induction false} TickCountAppend(ops: seq<Op>, op: Op)
    ensures TickCount(ops + [op]) == TickCount(ops) + if op.Tick? then 1 else 0
  {
    if ops != [] {
      TickCountAppend(ops[1..], op);
      assert (ops + [op])[1..] == ops[1..] + [op];
    }
  }

  lemma CountdownStep(ops: seq<Op>, k: nat)
    requires k < |ops|
    ensures Countdown(ops[..k + 1]) == Apply(Countdown(ops[..k]), ops[k], k)
  {
    assert ops[..k + 1][..k] == ops[..k];
  }

  /** While a timer is not deleted, its countdown is its ticks minus the ticks since, until it has fired. */
  lemma {:induction false} CountdownOf(ops: seq<Op>, h: nat, k: nat)
    requires h < k <= |ops| && ops[h].Add? && ops[h].timeout >= 0
    requires forall j | h < j < k :: ops[j] != Del(h)
    ensures h in Countdown(ops[..k]) <==> TickCount(ops[h + 1..k]) <= Ticks(ops[h].timeout)
    ensures h in Countdown(ops[..k]) ==>
              Countdown(ops[..k])[h] == Ticks(ops[h].timeout) - TickCount(ops[h + 1..k])
    decreases k
  {
    CountdownStep(ops, k - 1);
    if k - 1 == h {
      assert ops[h + 1..k] == [];
    } else {
      CountdownOf(ops, h, k - 1);
      assert ops[h + 1..k] == ops[h + 1..k - 1] + [ops[k - 1]];
      TickCountAppend(ops[h + 1..k - 1], ops[k - 1]);
    }
  }

  /** A timer that was never deleted expires at exactly one tick: the one after as many ticks as it was added for. */
  lemma ExpiresOnTime(ops: seq<Op>, h: nat, k: nat)
    requires h < k < |ops| && ops[h].Add? && ops[h].timeout >= 0 && ops[k].Tick?
    requires forall j | h < j < k :: ops[j] != Del(h)
    ensures h in Expired(Countdown(ops[..k])) <==> TickCount(ops[h + 1..k]) == Ticks(ops[h].timeout)
  {
    CountdownOf(ops, h, k);
  }

  /** Whoever counts down was added and not deleted since. */
  lemma {:induction false} CountsDownSince(ops: seq<Op>, h: nat, k: nat)
    requires k <= |ops| && h in Countdown(ops[..k])
    ensures h < k && ops[h].Add? && ops[h].timeout >= 0 && forall j | h < j < k :: ops[j] != Del(h)
    decreases k
  {
    CountdownStep(ops, k - 1);
    if h in Countdown(ops[..k - 1]) {
      CountsDownSince(ops, h, k - 1);
    }
  }

  /** A tick fires each expired timer once. */
  ghost predicate FiresOn(c: map<nat, int>, op: Op, fired: seq<int>) {
    if op.Tick? then
      && (forall i, j | 0 <= i < j < |fired| :: fired[i] != fired[j])
      && (forall h :: h in fired <==> h in Expired(c))
    else fired == []
  }

  /** `log[k]` names what the k-th operation fired, so far. */
  ghost predicate LogConforms(ops: seq<Op>, log: seq<seq<int>>) {
    |log| <= |ops| && forall k | 0 <= k < |log| :: FiresOn(Countdown(ops[..k]), ops[k], log[k])
  }

  lemma LogExtends(ops: seq<Op>, log: seq<seq<int>>, fired: seq<int>)
    requires |log| < |ops| && LogConforms(ops, log)
    requires FiresOn(Countdown(ops[..|log|]), ops[|log|], fired)
    ensures LogConforms(ops, log + [fired])
  {
  }

  /** A tick of a conforming run fires exactly the timers added so many ticks ago, plus one, and not deleted since. */
  lemma ConformingFires(ops: seq<Op>, log: seq<seq<int>>, h: nat, k: nat)
    requires LogConforms(ops, log) && k < |log| && ops[k].Tick?
    ensures h in log[k] <==>
              && h < k && ops[h].Add? && ops[h].timeout >= 0 && (forall j | h < j < k :: ops[j] != Del(h))
              && TickCount(ops[h + 1..k]) == if ops[h].timeout < 1 then 1 else ops[h].timeout
  {
    assert FiresOn(Countdown(ops[..k]), ops[k], log[k]);
    if h in Countdown(ops[..k]) {
      CountsDownSince(ops, h, k);
    }
    if h < k && ops[h].Add? && ops[h].timeout >= 0 && (forall j | h < j < k :: ops[j] != Del(h)) {
      ExpiresOnTime(ops, h, k);
    }
  }

  // ----- The wheel, driven by the operations

  /** The timers are exactly those that count down, with the ticks they have left; `held` are their pointers. */
  ghost predicate Tracks(timers: set<TwTimer>, cur: nat, c: map<nat, int>, held: map<nat, TwTimer?>)
    reads timers`user, timers`rotation
  {
    && (forall h | h in c :: h in held && held[h] != null && held[h] in timers && held[h].user == h)
    && (forall t | t in timers :: t.user >= 0 && t.user in c && held[t.user] == t)
    && (forall t | t in timers :: c[t.user] == Left(t.rotation, t.slot, cur))
  }

  lemma TracksAfterAdd(timers: set<TwTimer>, cur: nat, c: map<nat, int>, held: map<nat, TwTimer?>, t: TwTimer, k: nat)
    requires Tracks(timers, cur, c, held) && k !in c && t !in timers && t.user == k
    ensures Tracks(timers + {t}, cur, c[k := Left(t.rotation, t.slot, cur)], held[k := t])
  {
  }

  function Users(s: seq<TwTimer>): (r: seq<int>)
    reads s`user
    ensures |r| == |s| && forall i | 0 <= i < |s| :: r[i] == s[i].user
  {
    if s == [] then [] else [s[0].user] + Users(s[1..])
  }

  lemma TracksAfterRefusal(timers: set<TwTimer>, cur: nat, c: map<nat, int>, held: map<nat, TwTimer?>, k: nat)
    requires Tracks(timers, cur, c, held) && k !in c
    ensures Tracks(timers, cur, c, held[k := null])
  {
  }

  /** The caller names the new timer `t`, if there is one, by the number of the operation that added it. */
  method Name(w: TimeWheel, ghost before: set<TwTimer>, ghost c: map<nat, int>, held: map<nat, TwTimer?>, t: TwTimer?,
              k: nat, ghost left: int)
    returns (held': map<nat, TwTimer?>)
    requires w.Valid() && Tracks(before, w.cur, c, held) && k !in c
    requires t == null ==> w.timers == before
    requires t != null ==> t !in before && w.timers == before + {t} && w.Remaining(t) == left
    modifies (if t == null then {} else {t})`user
    ensures w.Valid() && Tracks(w.timers, w.cur, if t == null then c else c[k := left], held')
    ensures held' == held[k := t]
  {
    held' := held[k := t];
    if t == null {
      TracksAfterRefusal(w.timers, w.cur, c, held, k);
    } else {
      t.user := k;
      TracksAfterAdd(before, w.cur, c, held, t, k);
    }
  }

  method StepAdd(w: TimeWheel, ghost c: map<nat, int>, held: map<nat, TwTimer?>, timeout: int, k: nat)
    returns (held': map<nat, TwTimer?>)
    requires w.Valid() && Tracks(w.timers, w.cur, c, held) && k !in c
    modifies w`lists, w`timers, w.slots, w.timers`prev
    ensures w.Valid() && Tracks(w.timers, w.cur, if timeout < 0 then c else c[k := Ticks(timeout)], held')
    ensures w.slots == old(w.slots) && forall t | t in w.timers :: t in old(w.timers) || fresh(t)
    ensures k in held' && held' == held[k := held'[k]] && (held'[k] == null <==> timeout < 0)
  {
    ghost var before := w.timers;
    var t := w.AddTimer(timeout);
    held' := Name(w, before, c, held, t, k, Ticks(timeout));
  }

  method StepDel(w: TimeWheel, ghost c: map<nat, int>, held: map<nat, TwTimer?>, h: nat)
    requires w.Valid() && Tracks(w.timers, w.cur, c, held) && h in held && (held[h] == null || h in c)
    modifies w`lists, w`timers, w.slots, w.timers`prev, w.timers`next
    ensures w.Valid() && Tracks(w.timers, w.cur, c - {h}, held)
    ensures w.slots == old(w.slots) && w.timers <= old(w.timers)
  {
    ghost var k := 0;
    if held[h] != null {
      k :| 0 <= k < |w.lists[held[h].slot]| && w.lists[held[h].slot][k] == held[h];
    }
    w.DelTimer(held[h], k);
  }

  /** What ticked timers fire and how they count on. */
  lemma TracksAfterTick(timers: set<TwTimer>, f: seq<TwTimer>, timers': set<TwTimer>, cur': nat, c: map<nat, int>,
                        held: map<nat, TwTimer?>)
    requires forall h | h in c :: h in held && held[h] != null && held[h] in timers && held[h].user == h
    requires forall t | t in timers :: t.user >= 0 && t.user in c && held[t.user] == t
    requires Distinct(f) && forall t :: t in f <==> t in timers && c[t.user] == 0
    requires timers' == set t | t in timers && c[t.user] > 0
    requires forall t | t in timers' :: Left(t.rotation, t.slot, cur') == c[t.user] - 1
    ensures Tracks(timers', cur', CountedDown(c), held)
    ensures FiresOn(c, Tick, Users(f))
  {
    var u := Users(f);
    forall i | 0 <= i < |f| ensures u[i] in Expired(c) && held[u[i]] == f[i] {
      assert f[i] in f;
    }
    forall h | h in Expired(c) ensures h in u {
      assert held[h] in f;
      var i :| 0 <= i < |f| && f[i] == held[h];
      assert u[i] == h;
    }
  }

  method StepTick(w: TimeWheel, ghost c: map<nat, int>, held: map<nat, TwTimer?>) returns (fired: seq<int>)
    requires w.Valid() && Tracks(w.timers, w.cur, c, held)
    modifies w`lists, w`timers, w`cur, w.slots, w.timers`prev, w.timers`next, w.timers`rotation
    ensures w.Valid() && Tracks(w.timers, w.cur, CountedDown(c), held)
    ensures FiresOn(c, Tick, fired)
    ensures w.slots == old(w.slots) && w.timers <= old(w.timers)
  {
    var f := w.Tick();
    fired := Users(f);
    TracksAfterTick(old(w.timers), f, w.timers, w.cur, c, held);
  }

  /** The pointers that the first `k` operations have returned; only timers that were added count down. */
  ghost predicate Handles(held: map<nat, TwTimer?>, ops: seq<Op>, k: nat)
    requires k <= |ops|
  {
    && (forall h | h in Countdown(ops[..k]) :: h < k)
    && (forall h | 0 <= h < k && ops[h].Add? :: h in held && (held[h] == null <==> ops[h].timeout < 0))
  }

  lemma HandlesStep(held: map<nat, TwTimer?>, held': map<nat, TwTimer?>, ops: seq<Op>, k: nat)
    requires k < |ops| && Handles(held, ops, k)
    requires if ops[k].Add? then
               k in held' && held' == held[k := held'[k]] && (held'[k] == null <==> ops[k].timeout < 0)
             else held' == held
    ensures Handles(held', ops, k + 1)
  {
    CountdownStep(ops, k);
  }

  /** The wheel, the pointers and the log after the first `k` operations. */
  ghost predicate Reached(w: TimeWheel, held: map<nat, TwTimer?>, log: seq<seq<int>>, ops: seq<Op>, k: nat)
    requires k <= |ops|
    reads w, w.slots, w.timers
  {
    && w.Valid() && Tracks(w.timers, w.cur, Countdown(ops[..k]), held)
    && Handles(held, ops, k) && |log| == k && LogConforms(ops, log)
  }

  method Step(w: TimeWheel, ghost c: map<nat, int>, held: map<nat, TwTimer?>, op: Op, k: nat)
    returns (held': map<nat, TwTimer?>, fired: seq<int>)
    requires w.Valid() && Tracks(w.timers, w.cur, c, held) && k !in c
    requires op.Del? ==> op.handle in held && (held[op.handle] == null || op.handle in c)
    modifies w, w.slots, w.timers`prev, w.timers`next, w.timers`rotation
    ensures w.Valid() && Tracks(w.timers, w.cur, Apply(c, op, k), held') && FiresOn(c, op, fired)
    ensures w.slots == old(w.slots) && forall t | t in w.timers :: t in old(w.timers) || fresh(t)
    ensures if op.Add? then
              k in held' && held' == held[k := held'[k]] && (held'[k] == null <==> op.timeout < 0)
            else held' == held
  {
    held', fired := held, [];
    match op {
      case Add(timeout) => held' := StepAdd(w, c, held, timeout, k);
      case Del(h) => StepDel(w, c, held, h);
      case Tick => fired := StepTick(w, c, held);
    }
  }

  method Advance(w: TimeWheel, held: map<nat, TwTimer?>, log: seq<seq<int>>, ops: seq<Op>, k: nat)
    returns (held': map<nat, TwTimer?>, log': seq<seq<int>>)
    requires Legal(ops) && k < |ops| && Reached(w, held, log, ops, k)
    modifies w, w.slots, w.timers`prev, w.timers`next, w.timers`rotation
    ensures Reached(w, held', log', ops, k + 1)
    ensures w.slots == old(w.slots) && forall t | t in w.timers :: t in old(w.timers) || fresh(t)
  {
    CountdownStep(ops, k);
    var fired;
    held', fired := Step(w, Countdown(ops[..k]), held, ops[k], k);
    HandlesStep(held, held', ops, k);
    LogExtends(ops, log, fired);
    log' := log + [fired];
  }

  /**
   * For every legal sequence of operations, each tick of the wheel fires exactly the timers whose countdown has
   * expired; in particular a timer that is not deleted fires at the tick that follows as many ticks as it was
   * added for.
   */
  method RunWheel(ops: seq<Op>) returns (log: seq<seq<int>>)
    requires Legal(ops)
    ensures |log| == |ops| && LogConforms(ops, log)
    ensures forall h, k | 0 <= h < k < |ops| && ops[h].Add? && ops[h].timeout >= 0 && ops[k].Tick? && Del(h) !in ops ::
              h in log[k] <==> TickCount(ops[h + 1..k]) == Ticks(ops[h].timeout)
  {
    var w := new TimeWheel();
    var held: map<nat, TwTimer?> := map[];
    log := [];
    for k := 0 to |ops|
      invariant fresh(w) && fresh(w.slots) && forall t | t in w.timers :: fresh(t)
      invariant Reached(w, held, log, ops, k)
    {
      held, log := Advance(w, held, log, ops, k);
    }
    forall h, k | 0 <= h < k < |ops| && ops[h].Add? && ops[h].timeout >= 0 && ops[k].Tick? && Del(h) !in ops
      ensures h in log[k] <==> TickCount(ops[h + 1..k]) == Ticks(ops[h].timeout)
    {
      assert FiresOn(Countdown(ops[..k]), ops[k], log[k]);
      ExpiresOnTime(ops, h, k);
    }
  }
}
