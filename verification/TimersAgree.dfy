/** All three timer containers side by side, when deadlines are counted in ticks of the wheel. */
module TimersAgree {
  import HeapRun
  import Spec = TimerSpec
  import Wheel = WheelRun

  /** The operation on a container with deadlines that corresponds to `op` behind the operations `before`. */
  function Translated(before: seq<Wheel.Op>, op: Wheel.Op): (r: seq<Spec.Op>) {
    match op
    case Add(timeout) =>
      if timeout < 0 then [] else [Spec.Add(|before|, Wheel.TickCount(before) + Wheel.Ticks(timeout))]
    case Del(h) => if h < |before| && before[h].Add? && before[h].timeout >= 0 then [Spec.Del(h)] else []
    case Tick => [Spec.Tick(Wheel.TickCount(before))]
  }

  /** A timer that was added gets the number of the tick on which it expires as its deadline. */
  function AsTimers(ops: seq<Wheel.Op>): (r: seq<Spec.Op>) {
    if ops == [] then [] else AsTimers(ops[..|ops| - 1]) + Translated(ops[..|ops| - 1], ops[|ops| - 1])
  }

  lemma AsTimersStep(ops: seq<Wheel.Op>, k: nat)
    requires k < |ops|
    ensures AsTimers(ops[..k + 1]) == AsTimers(ops[..k]) + Translated(ops[..k], ops[k])
  {
    assert ops[..k + 1][..k] == ops[..k];
  }

  lemma TicksStep(ops: seq<Wheel.Op>, k: nat)
    requires k < |ops|
    ensures Wheel.TickCount(ops[..k + 1]) == Wheel.TickCount(ops[..k]) + if ops[k].Tick? then 1 else 0
  {
    assert ops[..k + 1] == ops[..k] + [ops[k]];
    Wheel.TickCountAppend(ops[..k], ops[k]);
  }

  // ----- The deadlines are those of the countdown

  /** The live timers are those that count down; each has as its deadline the tick at which nothing will be left. */
  ghost predicate Matches(live: Spec.Live, c: map<nat, int>, tick: nat) {
    && (forall id :: id in live <==> id >= 0 && id in c)
    && (forall h | h in c :: c[h] >= 0 && live[h] == tick + c[h])
  }

  lemma MatchesTick(live: Spec.Live, c: map<nat, int>, tick: nat)
    requires Matches(live, c, tick)
    ensures Matches(Spec.Apply(live, Spec.Tick(tick)), Wheel.CountedDown(c), tick + 1)
  {
  }

  lemma MatchesAdd(live: Spec.Live, c: map<nat, int>, tick: nat, h: nat, ticks: nat)
    requires Matches(live, c, tick)
    ensures Matches(live[h := tick + ticks], c[h := ticks], tick)
  {
  }

  lemma MatchesDel(live: Spec.Live, c: map<nat, int>, tick: nat, h: nat)
    requires Matches(live, c, tick)
    ensures Matches(live - {h}, c - {h}, tick)
  {
  }

  lemma {:induction false} CountsBelow(ops: seq<Wheel.Op>, k: nat)
    requires k <= |ops|
    ensures forall h | h in Wheel.Countdown(ops[..k]) :: h < k
  {
    if k > 0 {
      CountsBelow(ops, k - 1);
      Wheel.CountdownStep(ops, k - 1);
    }
  }

  /** Only what was added with a timeout counts down. */
  lemma {:induction false} NeverCounts(ops: seq<Wheel.Op>, h: nat, k: nat)
    requires h < k <= |ops| && (ops[h].Add? ==> ops[h].timeout < 0)
    ensures h !in Wheel.Countdown(ops[..k])
    decreases k
  {
    CountsBelow(ops, k - 1);
    Wheel.CountdownStep(ops, k - 1);
    if h < k - 1 {
      NeverCounts(ops, h, k - 1);
    }
  }

  /** What is live behind one more operation on the wheel. */
  ghost function LiveNext(live: Spec.Live, t: seq<Spec.Op>): (live': Spec.Live)
    requires |t| <= 1
  {
    if t == [] then live else Spec.Apply(live, t[0])
  }

  lemma LiveAfterTranslated(s: seq<Spec.Op>, t: seq<Spec.Op>)
    requires |t| <= 1
    ensures Spec.LiveAfter(s + t) == LiveNext(Spec.LiveAfter(s), t)
  {
    if t == [] {
      assert s + t == s;
    } else {
      assert (s + t)[..|s|] == s;
    }
  }

  lemma MatchesNext(ops: seq<Wheel.Op>, k: nat, live: Spec.Live, c: map<nat, int>, tick: nat)
    returns (live': Spec.Live, c': map<nat, int>, tick': nat)
    requires Wheel.Legal(ops) && k < |ops| && Matches(live, c, tick)
    requires c == Wheel.Countdown(ops[..k]) && tick == Wheel.TickCount(ops[..k])
    ensures live' == LiveNext(live, Translated(ops[..k], ops[k])) && c' == Wheel.Apply(c, ops[k], k)
    ensures tick' == tick + (if ops[k].Tick? then 1 else 0) && Matches(live', c', tick')
  {
    live', c', tick' := live, c, tick;
    match ops[k]
    case Add(timeout) =>
      if timeout >= 0 {
        MatchesAdd(live, c, tick, k, Wheel.Ticks(timeout));
        live', c' := live[k := tick + Wheel.Ticks(timeout)], c[k := Wheel.Ticks(timeout)];
      }
    case Del(h) =>
      if ops[h].timeout < 0 {
        NeverCounts(ops, h, k);
        assert c - {h} == c;
      } else {
        MatchesDel(live, c, tick, h);
        live', c' := live - {h}, c - {h};
      }
    case Tick =>
      MatchesTick(live, c, tick);
      live', c', tick' := Spec.Apply(live, Spec.Tick(tick)), Wheel.CountedDown(c), tick + 1;
  }

  lemma StepIsNext(ops: seq<Wheel.Op>, k: nat)
    requires k < |ops|
    ensures Spec.LiveAfter(AsTimers(ops[..k + 1])) ==
              LiveNext(Spec.LiveAfter(AsTimers(ops[..k])), Translated(ops[..k], ops[k]))
    ensures Wheel.Countdown(ops[..k + 1]) == Wheel.Apply(Wheel.Countdown(ops[..k]), ops[k], k)
    ensures Wheel.TickCount(ops[..k + 1]) == Wheel.TickCount(ops[..k]) + if ops[k].Tick? then 1 else 0
  {
    AsTimersStep(ops, k);
    TicksStep(ops, k);
    Wheel.CountdownStep(ops, k);
    LiveAfterTranslated(AsTimers(ops[..k]), Translated(ops[..k], ops[k]));
  }

  /** Behind any operations the two are in step. */
  lemma {:induction false} DeadlinesMatch(ops: seq<Wheel.Op>, k: nat)
    returns (live: Spec.Live, c: map<nat, int>, tick: nat)
    requires Wheel.Legal(ops) && k <= |ops|
    ensures live == Spec.LiveAfter(AsTimers(ops[..k])) && c == Wheel.Countdown(ops[..k])
    ensures tick == Wheel.TickCount(ops[..k]) && Matches(live, c, tick)
  {
    if k == 0 {
      live, c, tick := map[], map[], 0;
    } else {
      live, c, tick := DeadlinesMatch(ops, k - 1);
      StepIsNext(ops, k - 1);
      live, c, tick := MatchesNext(ops, k - 1, live, c, tick);
    }
  }

  // ----- The translation is legal

  ghost predicate IdsBelow(s: seq<Spec.Op>, n: nat) {
    forall j | 0 <= j < |s| && s[j].Add? :: s[j].id < n
  }

  lemma LegalStep(s: seq<Spec.Op>, op: Spec.Op, n: nat)
    requires Spec.Legal(s) && IdsBelow(s, n) && (op.Add? ==> op.id == n) && (op.Del? ==> op.id in Spec.LiveAfter(s))
    ensures Spec.Legal(s + [op]) && IdsBelow(s + [op], n + 1)
  {
    var s' := s + [op];
    forall k | 0 <= k < |s'| && s'[k].Del? ensures s'[k].id in Spec.LiveAfter(s'[..k]) {
      assert s'[..k] == s[..k];
      assert s[..|s|] == s;
    }
  }

  /** What may follow the legal operations `s`, whose timers have numbers below `n`. */
  ghost predicate MayFollow(s: seq<Spec.Op>, t: seq<Spec.Op>, n: nat) {
    && |t| <= 1 && (t != [] && t[0].Add? ==> t[0].id == n)
    && (t != [] && t[0].Del? ==> t[0].id in Spec.LiveAfter(s))
  }

  ghost predicate AllMayFollow(ops: seq<Wheel.Op>) {
    forall k | 0 <= k < |ops| :: MayFollow(AsTimers(ops[..k]), Translated(ops[..k], ops[k]), k)
  }

  lemma TranslatedMayFollow(ops: seq<Wheel.Op>, k: nat)
    requires Wheel.Legal(ops) && k < |ops|
    ensures MayFollow(AsTimers(ops[..k]), Translated(ops[..k], ops[k]), k)
  {
    var live, c, tick := DeadlinesMatch(ops, k);
  }

  lemma LegalTranslates(ops: seq<Wheel.Op>)
    requires Wheel.Legal(ops)
    ensures AllMayFollow(ops)
  {
    forall k | 0 <= k < |ops| ensures MayFollow(AsTimers(ops[..k]), Translated(ops[..k], ops[k]), k) {
      TranslatedMayFollow(ops, k);
    }
  }

  lemma LegalLonger(s: seq<Spec.Op>, t: seq<Spec.Op>, n: nat)
    requires Spec.Legal(s) && IdsBelow(s, n) && MayFollow(s, t, n)
    ensures Spec.Legal(s + t) && IdsBelow(s + t, n + 1)
  {
    if t == [] {
      assert s + t == s;
    } else {
      LegalStep(s, t[0], n);
      assert t == [t[0]];
    }
  }

  lemma {:induction false} TranslationIsLegal(ops: seq<Wheel.Op>, k: nat) returns (s: seq<Spec.Op>)
    requires AllMayFollow(ops) && k <= |ops|
    ensures s == AsTimers(ops[..k]) && Spec.Legal(s) && IdsBelow(s, k)
  {
    if k == 0 {
      s := [];
    } else {
      var before := TranslationIsLegal(ops, k - 1);
      LegalLonger(before, Translated(ops[..k - 1], ops[k - 1]), k - 1);
      AsTimersStep(ops, k - 1);
      s := before + Translated(ops[..k - 1], ops[k - 1]);
    }
  }

  // ----- Side by side

  /** The place of the k-th operation among the translated ones. */
  function PlaceOf(ops: seq<Wheel.Op>, k: nat): (n: nat)
    requires k <= |ops|
  {
    |AsTimers(ops[..k])|
  }

  lemma PrefixOfLonger<T>(a: seq<T>, b: seq<T>, c: seq<T>)
    requires a <= b
    ensures a <= b + c
  {
  }

  lemma {:induction false} PrefixOfTranslation(ops: seq<Wheel.Op>, k: nat, n: nat)
    requires k <= n <= |ops|
    ensures AsTimers(ops[..k]) <= AsTimers(ops[..n])
    decreases n
  {
    if k < n {
      PrefixOfTranslation(ops, k, n - 1);
      AsTimersStep(ops, n - 1);
      PrefixOfLonger(AsTimers(ops[..k]), AsTimers(ops[..n - 1]), Translated(ops[..n - 1], ops[n - 1]));
    }
  }

  /** A tick is translated to one tick, with what is live before it. */
  lemma TickIsTranslated(ops: seq<Wheel.Op>, k: nat)
    requires k < |ops| && ops[k].Tick?
    ensures var s, j := AsTimers(ops), PlaceOf(ops, k);
            j < |s| && s[j] == Spec.Tick(Wheel.TickCount(ops[..k])) && s[..j] == AsTimers(ops[..k])
  {
    AsTimersStep(ops, k);
    PrefixOfTranslation(ops, k + 1, |ops|);
    assert ops[..|ops|] == ops;
  }

  /** The same timers expire, and each of them exactly at its deadline. */
  lemma SameFirings(live: Spec.Live, c: map<nat, int>, tick: nat, f: seq<int>, g: seq<int>)
    requires Matches(live, c, tick) && Wheel.FiresOn(c, Wheel.Tick, f) && Spec.FiringAt(live, tick, g)
    ensures multiset(f) == multiset(g) && forall id | id in g :: id in live && live[id] == tick
  {
    forall x: int ensures x in f <==> x in g {
      assert x in g <==> x in live && live[x] <= tick;
      assert x in f <==> x in Wheel.Expired(c);
    }
    forall x: int ensures multiset(f)[x] == multiset(g)[x] {
      Spec.DistinctCounts(f, x);
      Spec.DistinctCounts(g, x);
    }
  }

  lemma TicksAgree(ops: seq<Wheel.Op>, k: nat, wheelFired: seq<int>, fired: seq<int>)
    requires Wheel.Legal(ops) && k < |ops| && ops[k].Tick?
    requires Wheel.FiresOn(Wheel.Countdown(ops[..k]), Wheel.Tick, wheelFired)
    requires Spec.FiringAt(Spec.LiveAfter(AsTimers(ops[..k])), Wheel.TickCount(ops[..k]), fired)
    ensures multiset(wheelFired) == multiset(fired)
  {
    var live, c, tick := DeadlinesMatch(ops, k);
    SameFirings(live, c, tick, wheelFired, fired);
  }

  /**
   * For every legal sequence of operations on the wheel: the list and the heap, given the number of the tick on which
   * each timer expires as its deadline, fire the same timers as the wheel, tick by tick.
   */
  method RunAllThree(ops: seq<Wheel.Op>, capacity: nat)
    returns (wheelLog: seq<seq<int>>, listLog: seq<seq<int>>, heapLog: seq<seq<int>>)
    requires Wheel.Legal(ops) && capacity > 0
    ensures |wheelLog| == |ops| && |listLog| == |heapLog| == |AsTimers(ops)|
    ensures forall k | 0 <= k < |ops| && ops[k].Tick? ::
              var j := PlaceOf(ops, k);
              && j < |AsTimers(ops)|
              && multiset(wheelLog[k]) == multiset(listLog[j]) == multiset(heapLog[j])
  {
    var timers := AsTimers(ops);
    assert ops[..|ops|] == ops;
    LegalTranslates(ops);
    ghost var legal := TranslationIsLegal(ops, |ops|);
    wheelLog := Wheel.RunWheel(ops);
    var left, left';
    listLog, heapLog, left, left' := HeapRun.RunBoth(timers, capacity);
    forall k | 0 <= k < |ops| && ops[k].Tick?
      ensures PlaceOf(ops, k) < |timers| && multiset(wheelLog[k]) == multiset(listLog[PlaceOf(ops, k)])
    {
      TickIsTranslated(ops, k);
      assert Wheel.FiresOn(Wheel.Countdown(ops[..k]), ops[k], wheelLog[k]);
      TicksAgree(ops, k, wheelLog[k], listLog[PlaceOf(ops, k)]);
    }
  }
}
