/** How the parent of `processpool.h` hands new connections to its children. */
module RoundRobin {

  const MAX_PROCESS_NUMBER: nat := 16

  predicate Live(pids: seq<int>, i: int) {
    0 <= i < |pids| && pids[i] != -1
  }

  ghost predicate AnyLive(pids: seq<int>) {
    exists i :: Live(pids, i)
  }

  /** How many turns behind `from` the index `i` is, in a ring of `n`. */
  function Dist(n: nat, from: nat, i: nat): (r: int) {
    if i >= from then i - from else i - from + n
  }

  /** The live child that comes next from `from` on. */
  ghost predicate IsNext(pids: seq<int>, from: nat, i: nat) {
    Live(pids, i) && forall j: nat | Live(pids, j) :: Dist(|pids|, from, i) <= Dist(|pids|, from, j)
  }

  // ----- Fairness

  /** `sub_process_counter` behind the picks. */
  function Counter(n: nat, from: nat, picks: seq<nat>): (r: nat) {
    if picks == [] || n == 0 then from else (picks[|picks| - 1] + 1) % n
  }

  /** `picks` are the children of successive dispatches, the first one from `from` on, with the same live ones. */
  ghost predicate Window(pids: seq<int>, from: nat, picks: seq<nat>) {
    |picks| > 0 ==>
      var k := |picks| - 1;
      Window(pids, from, picks[..k]) && IsNext(pids, Counter(|pids|, from, picks[..k]), picks[k])
  }

  function Count(picks: seq<nat>, i: nat): (n: nat) {
    if picks == [] then 0 else Count(picks[..|picks| - 1], i) + if picks[|picks| - 1] == i then 1 else 0
  }

  /** Whoever is less than `e` turns behind `from` is one ahead of the `laps` that all live children have. */
  ghost predicate Laps(pids: seq<int>, from: nat, picks: seq<nat>, laps: nat, e: nat) {
    && e <= |pids|
    && Counter(|pids|, from, picks) == (if from + e < |pids| then from + e else from + e - |pids|)
    && forall i: nat | i < |pids| ::
         Count(picks, i) == if !Live(pids, i) then 0 else if Dist(|pids|, from, i) < e then laps + 1 else laps
  }

  lemma IndexBehind(n: nat, i: nat)
    requires i < n
    ensures (i + 1) % n == if i + 1 < n then i + 1 else 0
  {
  }

  /** From `e` turns behind `from` on, the next one is the nearest behind that, or else the nearest of all. */
  lemma NextInLap(pids: seq<int>, from: nat, e: nat, i: nat)
    requires from < |pids| && e <= |pids|
    requires IsNext(pids, if from + e < |pids| then from + e else from + e - |pids|, i)
    ensures var d := Dist(|pids|, from, i);
            if d >= e then forall j: nat | Live(pids, j) && Dist(|pids|, from, j) >= e :: d <= Dist(|pids|, from, j)
            else forall j: nat | Live(pids, j) :: d <= Dist(|pids|, from, j) < e
    ensures (i + 1) % |pids| == if from + Dist(|pids|, from, i) + 1 < |pids| then from + Dist(|pids|, from, i) + 1
                               else from + Dist(|pids|, from, i) + 1 - |pids|
  {
    var n := |pids|;
    var c := if from + e < n then from + e else from + e - n;
    IndexBehind(n, i);
    forall j: nat | Live(pids, j) ensures Dist(n, c, i) <= Dist(n, c, j) {
    }
  }

  lemma {:induction false} LapsOf(pids: seq<int>, from: nat, picks: seq<nat>) returns (laps: nat, e: nat)
    requires from < |pids| && Window(pids, from, picks)
    ensures Laps(pids, from, picks, laps, e)
  {
    if picks == [] {
      laps, e := 0, 0;
    } else {
      var k := |picks| - 1;
      laps, e := LapsOf(pids, from, picks[..k]);
      var d := Dist(|pids|, from, picks[k]);
      NextInLap(pids, from, e, picks[k]);
      laps, e := if d < e then laps + 1 else laps, d + 1;
    }
  }

  /** Over any window with the same live children, the counts of any two of them differ by at most one. */
  lemma Fair(pids: seq<int>, from: nat, picks: seq<nat>, i: nat, j: nat)
    requires from < |pids| && Window(pids, from, picks) && Live(pids, i) && Live(pids, j)
    ensures -1 <= Count(picks, i) - Count(picks, j) <= 1
  {
    var laps, e := LapsOf(pids, from, picks);
  }

  lemma FairToAll(pids: seq<int>, from: nat, picks: seq<nat>)
    requires from < |pids| && Window(pids, from, picks)
    ensures forall i: nat, j: nat | Live(pids, i) && Live(pids, j) :: -1 <= Count(picks, i) - Count(picks, j) <= 1
  {
    forall i: nat, j: nat | Live(pids, i) && Live(pids, j) {
      Fair(pids, from, picks, i, j);
    }
  }

  lemma WindowStep(pids: seq<int>, from: nat, picks: seq<nat>, child: nat)
    requires pids != [] && Window(pids, from, picks) && IsNext(pids, Counter(|pids|, from, picks), child)
    ensures Window(pids, from, picks + [child])
    ensures Counter(|pids|, from, picks + [child]) == (child + 1) % |pids|
  {
    assert (picks + [child])[..|picks|] == picks;
  }

  // ----- The parent

  /** What `waitpid` returns for children that are gone. */
  ghost predicate Pids(reaped: seq<int>) {
    forall k | 0 <= k < |reaped| :: reaped[k] > 0
  }

  /** One turn of the search past a child that is gone. */
  lemma SearchOn(pids: seq<int>, from: nat, i: nat)
    requires from < |pids| && i < |pids| && !Live(pids, i)
    requires forall j: nat | Live(pids, j) :: Dist(|pids|, from, i) <= Dist(|pids|, from, j)
    ensures var next := (i + 1) % |pids|;
            if next == from then !AnyLive(pids)
            else && Dist(|pids|, from, next) == Dist(|pids|, from, i) + 1
                 && forall j: nat | Live(pids, j) :: Dist(|pids|, from, next) <= Dist(|pids|, from, j)
  {
    var next := if i + 1 < |pids| then i + 1 else 0;
    IndexBehind(|pids|, i);
    if next == from {
      assert forall j: nat | j < |pids| :: Dist(|pids|, from, j) <= Dist(|pids|, from, i);
    }
  }

  class Parent {
    const pids: array<int>
    var counter: nat
    var stop: bool

    /** It is told to stop exactly when no child is left. */
    ghost predicate Valid()
      reads this, pids
    {
      0 < pids.Length <= MAX_PROCESS_NUMBER && counter < pids.Length && (stop <==> !AnyLive(pids[..]))
    }

    constructor (children: seq<int>)
      requires 0 < |children| <= MAX_PROCESS_NUMBER && -1 !in children
      ensures Valid() && fresh(pids) && pids[..] == children && counter == 0 && !stop
    {
      pids := new int[|children|](i requires 0 <= i < |children| => children[i]);
      counter, stop := 0, false;
      new;
      assert pids[..] == children;
      assert Live(pids[..], 0);
    }

    /** The search loop. */
    method Search() returns (i: nat)
      requires Valid()
      ensures i < pids.Length
      ensures if AnyLive(pids[..]) then IsNext(pids[..], counter, i) else pids[i] == -1
    {
      i := counter;
      ghost var n := pids.Length;
      while pids[i] == -1
        invariant i < n && forall j: nat | Live(pids[..], j) :: Dist(n, counter, i) <= Dist(n, counter, j)
        decreases n - Dist(n, counter, i)
      {
        SearchOn(pids[..], counter, i);
        i := (i + 1) % pids.Length;
        if i == counter {
          return;
        }
      }
      assert Live(pids[..], i);
    }

    /** A new connection: the child it goes to, if there is one. */
    method Dispatch() returns (sent: bool, child: nat)
      requires Valid()
      modifies this`counter, this`stop
      ensures Valid() && stop == old(stop) && (sent <==> AnyLive(pids[..]))
      ensures sent ==> IsNext(pids[..], old(counter), child) && counter == (child + 1) % pids.Length
      ensures !sent ==> counter == old(counter)
    {
      child := Search();
      if pids[child] == -1 {
        stop := true;
        return false, child;
      }
      counter := (child + 1) % pids.Length;
      return true, child;
    }

    /** SIGCHLD: `reaped` are the results of `waitpid`. */
    method OnChildExit(reaped: seq<int>)
      requires Valid() && Pids(reaped)
      modifies this`stop, pids
      ensures Valid() && counter == old(counter)
      ensures forall i | 0 <= i < pids.Length :: pids[i] == if old(pids[i]) in reaped then -1 else old(pids[i])
    {
      for k := 0 to |reaped|
        modifies pids
        invariant forall i | 0 <= i < pids.Length :: pids[i] == if old(pids[i]) in reaped[..k] then -1 else old(pids[i])
      {
        for i := 0 to pids.Length
          modifies pids
          invariant forall j | 0 <= j < pids.Length ::
                      pids[j] == if old(pids[j]) in reaped[..if j < i then k + 1 else k] then -1 else old(pids[j])
        {
          if pids[i] == reaped[k] {
            pids[i] := -1;
          }
        }
      }
      assert reaped[..|reaped|] == reaped;
      stop := true;
      for i := 0 to pids.Length
        modifies this`stop
        invariant stop <==> forall j | 0 <= j < i :: !Live(pids[..], j)
      {
        if pids[i] != -1 {
          stop := false;
          assert Live(pids[..], i);
        }
      }
    }
  }

  /** A window of new connections between two child exits. */
  method ServeWindow(p: Parent, m: nat) returns (picks: seq<nat>)
    requires p.Valid() && AnyLive(p.pids[..])
    modifies p`counter, p`stop
    ensures p.Valid() && |picks| == m && Window(p.pids[..], old(p.counter), picks)
    ensures forall i: nat, j: nat | Live(p.pids[..], i) && Live(p.pids[..], j) ::
              -1 <= Count(picks, i) - Count(picks, j) <= 1
  {
    picks := [];
    ghost var pids, from := p.pids[..], p.counter;
    for k := 0 to m
      invariant p.Valid() && |picks| == k && Window(pids, from, picks) && p.counter == Counter(|pids|, from, picks)
    {
      var sent, child := p.Dispatch();
      WindowStep(pids, from, picks, child);
      picks := picks + [child];
    }
    FairToAll(pids, from, picks);
  }

  // ----- Any run of the parent

  datatype Event = NewConn | Exits(reaped: seq<int>)

  /** The table of children behind the events. */
  function Remaining(children: seq<int>, events: seq<Event>): (pids: seq<int>)
    ensures |pids| == |children|
  {
    if events == [] then children
    else
      var pids := Remaining(children, events[..|events| - 1]);
      match events[|events| - 1]
      case NewConn => pids
      case Exits(reaped) => seq(|pids|, i requires 0 <= i < |pids| => if pids[i] in reaped then -1 else pids[i])
  }

  lemma RemainingStep(children: seq<int>, events: seq<Event>, k: nat)
    requires k < |events|
    ensures var pids := Remaining(children, events[..k]);
            var next := Remaining(children, events[..k + 1]);
            match events[k]
            case NewConn => next == pids
            case Exits(reaped) => forall i | 0 <= i < |pids| :: next[i] == if pids[i] in reaped then -1 else pids[i]
  {
    assert events[..k + 1][..k] == events[..k];
  }

  /** Where the search for the next child begins, behind the events that were logged. */
  function Position(n: nat, events: seq<Event>, log: seq<nat>): (from: nat)
    requires n > 0 && |log| <= |events|
  {
    if log == [] then 0
    else
      var k := |log| - 1;
      if events[k].NewConn? then (log[k] + 1) % n else Position(n, events, log[..k])
  }

  lemma PositionStep(n: nat, events: seq<Event>, log: seq<nat>, child: nat)
    requires n > 0 && |log| < |events|
    ensures Position(n, events, log + [child]) ==
              if events[|log|].NewConn? then (child + 1) % n else Position(n, events, log)
  {
    assert (log + [child])[..|log|] == log;
  }

  /** A child is gone exactly if some event has reaped it. */
  lemma {:induction false} GoneIff(children: seq<int>, events: seq<Event>, i: nat)
    requires i < |children| && forall k | 0 <= k < |events| && events[k].Exits? :: Pids(events[k].reaped)
    ensures Remaining(children, events)[i] ==
              if exists k | 0 <= k < |events| :: events[k].Exits? && children[i] in events[k].reaped then -1
              else children[i]
  {
    if events != [] {
      var n := |events| - 1;
      GoneIff(children, events[..n], i);
      if k :| 0 <= k < n && events[k].Exits? && children[i] in events[k].reaped {
        assert events[..n][k] == events[k];
      }
      assert events[n].Exits? ==> -1 !in events[n].reaped;
    }
  }

  /** The search begins behind the child that the last new connection went to, or at the first child. */
  lemma {:induction false} PositionIsBehindLast(n: nat, events: seq<Event>, log: seq<nat>) returns (k: int)
    requires n > 0 && |log| <= |events|
    ensures -1 <= k < |log| && (forall j | k < j < |log| :: events[j].Exits?)
    ensures if k == -1 then Position(n, events, log) == 0
            else events[k].NewConn? && Position(n, events, log) == (log[k] + 1) % n
    decreases |log|
  {
    k := |log| - 1;
    if k >= 0 && events[k].Exits? {
      k := PositionIsBehindLast(n, events, log[..k]);
    }
  }

  /** What is said of the child that an event went to. */
  ghost predicate Served(children: seq<int>, events: seq<Event>, log: seq<nat>, child: nat)
    requires children != [] && |log| < |events|
  {
    var pids := Remaining(children, events[..|log|]);
    AnyLive(pids) && (events[|log|].NewConn? ==> IsNext(pids, Position(|children|, events, log), child))
  }

  method Handle(p: Parent, children: seq<int>, events: seq<Event>, log: seq<nat>) returns (child: nat)
    requires children != [] && |log| < |events| && (events[|log|].Exits? ==> Pids(events[|log|].reaped))
    requires p.Valid() && !p.stop && p.pids[..] == Remaining(children, events[..|log|])
    requires p.counter == Position(|children|, events, log)
    modifies p, p.pids
    ensures p.Valid() && p.pids[..] == Remaining(children, events[..|log| + 1]) && Served(children, events, log, child)
    ensures p.counter == Position(|children|, events, log + [child])
  {
    RemainingStep(children, events, |log|);
    child := 0;
    match events[|log|] {
      case NewConn =>
        var sent;
        sent, child := p.Dispatch();
      case Exits(reaped) =>
        p.OnChildExit(reaped);
    }
    PositionStep(|children|, events, log, child);
  }

  /** Until now some child was left before every event, and every new connection went to the next one of them. */
  ghost predicate Sound(children: seq<int>, events: seq<Event>, log: seq<nat>)
    requires children != [] && |log| <= |events|
  {
    forall k | 0 <= k < |log| :: Served(children, events, log[..k], log[k])
  }

  lemma SoundStep(children: seq<int>, events: seq<Event>, log: seq<nat>, child: nat)
    requires children != [] && |log| < |events| && Sound(children, events, log)
    requires Served(children, events, log, child)
    ensures Sound(children, events, log + [child])
  {
    var log' := log + [child];
    forall k | 0 <= k < |log'| ensures Served(children, events, log'[..k], log'[k]) {
      if k < |log| {
        assert log'[..k] == log[..k];
      } else {
        assert log'[..k] == log;
      }
    }
  }

  /** No child is gone between these events. */
  ghost predicate NoExits(events: seq<Event>, a: nat, b: nat)
    requires b <= |events|
  {
    forall k | a <= k < b :: events[k].NewConn?
  }

  /** `log[a..k]` is a window of dispatches, to the children `pids`. */
  ghost predicate IsWindow(children: seq<int>, events: seq<Event>, log: seq<nat>, a: nat, k: nat, pids: seq<int>,
                           from: nat)
    requires children != [] && a <= k <= |log| <= |events|
  {
    && Remaining(children, events[..k]) == pids && Window(pids, from, log[a..k])
    && Position(|children|, events, log[..k]) == Counter(|pids|, from, log[a..k])
  }

  lemma SlicesGrow(log: seq<nat>, a: nat, k: nat)
    requires a <= k < |log|
    ensures log[a..k + 1] == log[a..k] + [log[k]] && log[..k + 1] == log[..k] + [log[k]]
  {
  }

  lemma WindowGrows(children: seq<int>, events: seq<Event>, log: seq<nat>, a: nat, k: nat, pids: seq<int>, from: nat)
    requires children != [] && a <= k < |log| <= |events| && IsWindow(children, events, log, a, k, pids, from)
    requires Served(children, events, log[..k], log[k]) && events[k].NewConn?
    ensures IsWindow(children, events, log, a, k + 1, pids, from)
  {
    SlicesGrow(log, a, k);
    RemainingStep(children, events, k);
    WindowStep(pids, from, log[a..k], log[k]);
    PositionStep(|children|, events, log[..k], log[k]);
  }

  /** What was logged between two exits of children is a window of the dispatches. */
  lemma {:induction false} WindowOfRun(children: seq<int>, events: seq<Event>, log: seq<nat>, a: nat, b: nat)
    requires children != [] && |log| <= |events| && Sound(children, events, log)
    requires a <= b <= |log| && NoExits(events, a, b)
    ensures var pids, from := Remaining(children, events[..a]), Position(|children|, events, log[..a]);
            IsWindow(children, events, log, a, b, pids, from)
    decreases b
  {
    if a < b {
      WindowOfRun(children, events, log, a, b - 1);
      assert Served(children, events, log[..b - 1], log[b - 1]);
      WindowGrows(children, events, log, a, b - 1, Remaining(children, events[..a]),
                  Position(|children|, events, log[..a]));
    }
  }

  lemma PositionIsIndex(n: nat, events: seq<Event>, log: seq<nat>)
    requires n > 0 && |log| <= |events|
    ensures Position(n, events, log) < n
    decreases |log|
  {
    if log != [] && !events[|log| - 1].NewConn? {
      PositionIsIndex(n, events, log[..|log| - 1]);
    }
  }

  ghost predicate Balanced(pids: seq<int>, picks: seq<nat>) {
    forall i: nat, j: nat | Live(pids, i) && Live(pids, j) :: -1 <= Count(picks, i) - Count(picks, j) <= 1
  }

  /** Between any two exits of children the new connections are shared out fairly among those that are left. */
  ghost predicate FairBetweenExits(children: seq<int>, events: seq<Event>, log: seq<nat>)
    requires |log| <= |events|
  {
    forall a, b | 0 <= a <= b <= |log| && NoExits(events, a, b) :: Balanced(Remaining(children, events[..a]), log[a..b])
  }

  lemma RunIsFair(children: seq<int>, events: seq<Event>, log: seq<nat>)
    requires children != [] && |log| <= |events| && Sound(children, events, log)
    ensures FairBetweenExits(children, events, log)
  {
    forall a, b | 0 <= a <= b <= |log| && NoExits(events, a, b)
      ensures Balanced(Remaining(children, events[..a]), log[a..b])
    {
      WindowOfRun(children, events, log, a, b);
      PositionIsIndex(|children|, events, log[..a]);
      FairToAll(Remaining(children, events[..a]), Position(|children|, events, log[..a]), log[a..b]);
    }
  }

  /**
   * Every new connection goes to the next child that is left, so that they are shared out fairly between two exits;
   * and the loop ends early exactly when no child is left.
   */
  method RunParent(children: seq<int>, events: seq<Event>) returns (log: seq<nat>)
    requires 0 < |children| <= MAX_PROCESS_NUMBER && -1 !in children
    requires forall k | 0 <= k < |events| && events[k].Exits? :: Pids(events[k].reaped)
    ensures |log| <= |events|
    ensures |log| < |events| ==> !AnyLive(Remaining(children, events[..|log|]))
    ensures Sound(children, events, log) && FairBetweenExits(children, events, log)
  {
    var p := new Parent(children);
    log := [];
    while !p.stop && |log| < |events|
      invariant fresh(p) && fresh(p.pids) && p.Valid() && |log| <= |events|
      invariant p.pids[..] == Remaining(children, events[..|log|]) && Sound(children, events, log)
      invariant p.counter == Position(|children|, events, log)
      decreases |events| - |log|
    {
      var child := Handle(p, children, events, log);
      SoundStep(children, events, log, child);
      log := log + [child];
    }
    RunIsFair(children, events, log);
  }
}
