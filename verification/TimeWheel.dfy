/** The hashed time wheel of `tw_timer.h`: 60 slots of doubly linked timers with a rotation count each. */
module TimeWheel {
  import opened Sequences

  /** The number of slots. The slot interval is one time unit. */
  const N: nat := 60

  /** `tw_timer`. The caller of `add_timer` sets `user`, the value handed to the callback. */
  class TwTimer {
    var rotation: int
    var user: int
    const slot: nat
    var prev: TwTimer?
    var next: TwTimer?

    constructor (rot: int, ts: nat)
      ensures rotation == rot && slot == ts && prev == null && next == null
    {
      rotation, user, slot, prev, next := rot, 0, ts, null, null;
    }
  }

  // ----- One slot: a doubly linked list without a tail pointer

  ghost function NodeAt(s: seq<TwTimer>, i: int): (timer: TwTimer?) {
    if 0 <= i < |s| then s[i] else null
  }

  ghost predicate Linked(s: seq<TwTimer>, head: TwTimer?)
    reads s`prev, s`next
  {
    && Distinct(s)
    && head == NodeAt(s, 0)
    && (forall i {:trigger s[i].next} | 0 <= i < |s| :: s[i].next == NodeAt(s, i + 1))
    && (forall i {:trigger s[i].prev} | 0 <= i < |s| :: s[i].prev == NodeAt(s, i - 1))
  }

  /** Takes the timer at index `k` out of its slot and returns the new head of the slot. */
  method Unlink(head: TwTimer?, timer: TwTimer, ghost s: seq<TwTimer>, ghost k: nat) returns (head': TwTimer?)
    requires Linked(s, head) && k < |s| && s[k] == timer
    modifies s`prev, s`next
    ensures Linked(Without(s, k), head')
    ensures timer.next == old(timer.next)
  {
    head' := head;
    if timer == head {
      head' := head.next;
      if head' != null {
        head'.prev := null;
      }
    } else {
      timer.prev.next := timer.next;
      if timer.next != null {
        timer.next.prev := timer.prev;
      }
    }
  }

  // ----- What a visit of a slot does

  /** `r` are the rotations of the timers `s`. */
  ghost predicate HasRotations(s: seq<TwTimer>, r: seq<int>)
    reads s`rotation
  {
    |s| == |r| && forall i | 0 <= i < |s| :: s[i].rotation == r[i]
  }

  ghost function Rotations(s: seq<TwTimer>): (r: seq<int>)
    reads s`rotation
    ensures HasRotations(s, r)
  {
    if s == [] then [] else [s[0].rotation] + Rotations(s[1..])
  }

  /** The timers that fire when their slot is visited with rotations `r`, in slot order. */
  ghost function Expiring(s: seq<TwTimer>, r: seq<int>): (timers: seq<TwTimer>)
    requires |r| == |s|
  {
    if s == [] then [] else (if r[0] > 0 then [] else [s[0]]) + Expiring(s[1..], r[1..])
  }

  /** The timers that stay, in slot order. */
  ghost function Waiting(s: seq<TwTimer>, r: seq<int>): (timers: seq<TwTimer>)
    requires |r| == |s|
  {
    if s == [] then [] else (if r[0] > 0 then [s[0]] else []) + Waiting(s[1..], r[1..])
  }

  /** The rotations of the timers that stay, one lower. */
  ghost function Lowered(r: seq<int>): (low: seq<int>) {
    if r == [] then [] else (if r[0] > 0 then [r[0] - 1] else []) + Lowered(r[1..])
  }

  /** How far a visit has come: what it kept, with the lowered rotations, what it fired, and what is still to visit. */
  datatype Progress = Progress(kept: seq<TwTimer>, low: seq<int>, fired: seq<TwTimer>, rest: seq<TwTimer>, r: seq<int>)
  {
    ghost function Slot(): (timers: seq<TwTimer>) { kept + rest }

    /** The next timer stays. */
    ghost function Keep(): (p': Progress)
      requires rest != [] && r != []
    {
      Progress(kept + [rest[0]], low + [r[0] - 1], fired, rest[1..], r[1..])
    }

    /** The next timer fires. */
    ghost function Fire(): (p': Progress)
      requires rest != [] && r != []
    {
      Progress(kept, low, fired + [rest[0]], rest[1..], r[1..])
    }

    /** The visit of `s` with rotations `r0` has come to this point. */
    ghost predicate Accounts(s: seq<TwTimer>, r0: seq<int>)
      requires |s| == |r0|
    {
      && |r| == |rest| && |low| == |kept|
      && fired + Expiring(rest, r) == Expiring(s, r0)
      && kept + Waiting(rest, r) == Waiting(s, r0)
      && low + Lowered(r) == Lowered(r0)
    }

    ghost predicate InSlot(head: TwTimer?)
      reads Slot()`prev, Slot()`next, Slot()`rotation
    {
      Linked(Slot(), head) && HasRotations(Slot(), low + r)
    }
  }

  lemma AccountsStep(p: Progress, s: seq<TwTimer>, r0: seq<int>)
    requires |s| == |r0| && p.Accounts(s, r0) && p.rest != []
    ensures if p.r[0] > 0 then p.Keep().Accounts(s, r0) else p.Fire().Accounts(s, r0)
  {
    assert p.kept + ([p.rest[0]] + Waiting(p.rest[1..], p.r[1..]))
        == (p.kept + [p.rest[0]]) + Waiting(p.rest[1..], p.r[1..]);
    assert p.fired + ([p.rest[0]] + Expiring(p.rest[1..], p.r[1..]))
        == (p.fired + [p.rest[0]]) + Expiring(p.rest[1..], p.r[1..]);
    assert p.low + ([p.r[0] - 1] + Lowered(p.r[1..])) == (p.low + [p.r[0] - 1]) + Lowered(p.r[1..]);
  }

  lemma RotationsWithout(s: seq<TwTimer>, r: seq<int>, k: nat)
    requires HasRotations(s, r) && k < |s|
    ensures HasRotations(Without(s, k), r[..k] + r[k + 1..])
  {
  }

  /** The next timer of a visit, and the one behind it. */
  lemma NextInSlot(p: Progress, head: TwTimer?)
    requires p.InSlot(head) && |p.low| == |p.kept| && |p.r| == |p.rest| > 0
    ensures p.rest[0] in p.Slot() && p.rest[0] == p.Slot()[|p.kept|]
    ensures p.rest[0].rotation == p.r[0]
    ensures p.rest[0].next == NodeAt(p.rest[1..], 0)
  {
    var k := |p.kept|;
    assert p.Slot()[k] == p.rest[0] && p.Slot()[k].next == NodeAt(p.Slot(), k + 1);
    assert (p.low + p.r)[k] == p.r[0];
  }

  /** One visited timer that stays: only its rotation changes. */
  method KeepNext(timer: TwTimer, head: TwTimer?, ghost p: Progress)
    requires p.InSlot(head) && |p.low| == |p.kept| && |p.r| == |p.rest| > 0 && timer == p.rest[0]
    modifies timer`rotation
    ensures p.Keep().InSlot(head)
  {
    ghost var s := p.Slot();
    NextInSlot(p, head);
    timer.rotation := timer.rotation - 1;
    assert p.Keep().Slot() == s;
    assert p.Keep().low + p.Keep().r == (p.low + p.r)[|p.kept| := timer.rotation];
  }

  /** One visited timer that fires: it leaves the slot. */
  method FireNext(timer: TwTimer, head: TwTimer?, ghost p: Progress) returns (head': TwTimer?)
    requires p.InSlot(head) && |p.low| == |p.kept| && |p.r| == |p.rest| > 0 && timer == p.rest[0]
    modifies p.Slot()`prev, p.Slot()`next
    ensures p.Fire().InSlot(head')
    ensures timer.next == old(timer.next)
  {
    ghost var k, rs := |p.kept|, p.low + p.r;
    NextInSlot(p, head);
    RotationsWithout(p.Slot(), rs, k);
    head' := Unlink(head, timer, p.Slot(), k);
    assert p.Fire().Slot() == Without(p.Slot(), k);
    assert p.Fire().low + p.Fire().r == rs[..k] + rs[k + 1..];
  }

  ghost predicate Within(a: seq<TwTimer>, b: seq<TwTimer>) {
    forall i | 0 <= i < |a| :: a[i] in b
  }

  /** The body of the loop of `tick`. */
  method VisitNext(tmp: TwTimer, head: TwTimer?, fired: seq<TwTimer>, ghost p: Progress)
    returns (next: TwTimer?, head': TwTimer?, fired': seq<TwTimer>, ghost p': Progress)
    requires p.InSlot(head) && |p.low| == |p.kept| && |p.r| == |p.rest| > 0
    requires tmp == p.rest[0] && fired == p.fired
    modifies p.Slot()`prev, p.Slot()`next, p.Slot()`rotation
    ensures p' == if p.r[0] > 0 then p.Keep() else p.Fire()
    ensures p'.InSlot(head') && next == NodeAt(p'.rest, 0) && fired' == p'.fired
  {
    head', fired' := head, fired;
    NextInSlot(p, head);
    if tmp.rotation > 0 {
      KeepNext(tmp, head', p);
      p' := p.Keep();
    } else {
      fired' := fired + [tmp];
      head' := FireNext(tmp, head', p);
      p' := p.Fire();
    }
    next := tmp.next;
  }

  /** The loop of `tick` over slot `s` with rotations `r0` has come to `tmp`. */
  ghost predicate Visiting(p: Progress, s: seq<TwTimer>, r0: seq<int>, head: TwTimer?, tmp: TwTimer?,
                           fired: seq<TwTimer>)
    reads p.Slot()`prev, p.Slot()`next, p.Slot()`rotation
  {
    && |s| == |r0| && p.InSlot(head) && p.Accounts(s, r0) && Within(p.Slot(), s)
    && tmp == NodeAt(p.rest, 0) && fired == p.fired
  }

  lemma StepStaysWithin(p: Progress, s: seq<TwTimer>)
    requires p.rest != [] && p.r != [] && Within(p.Slot(), s)
    ensures Within(p.Keep().Slot(), s) && Within(p.Fire().Slot(), s)
    ensures forall t | t in p.Slot() :: t in s
  {
    assert p.Keep().Slot() == p.Slot();
    assert p.Fire().Slot() == Without(p.Slot(), |p.kept|);
  }

  method VisitOne(tmp: TwTimer, head: TwTimer?, fired: seq<TwTimer>, ghost p: Progress, ghost s: seq<TwTimer>,
                  ghost r0: seq<int>)
    returns (next: TwTimer?, head': TwTimer?, fired': seq<TwTimer>, ghost p': Progress)
    requires Visiting(p, s, r0, head, tmp, fired)
    modifies s`prev, s`next, s`rotation
    ensures Visiting(p', s, r0, head', next, fired') && |p'.rest| < |p.rest|
  {
    AccountsStep(p, s, r0);
    StepStaysWithin(p, s);
    next, head', fired', p' := VisitNext(tmp, head, fired, p);
  }

  lemma VisitBegins(s: seq<TwTimer>, r: seq<int>, head: TwTimer?) returns (p: Progress)
    requires Linked(s, head) && HasRotations(s, r)
    ensures Visiting(p, s, r, head, head, [])
  {
    p := Progress([], [], [], s, r);
    assert p.Slot() == s && p.low + p.r == p.r;
    assert [] + Expiring(s, r) == Expiring(s, r) && [] + Waiting(s, r) == Waiting(s, r);
  }

  lemma VisitEnds(p: Progress, s: seq<TwTimer>, r0: seq<int>, head: TwTimer?, fired: seq<TwTimer>)
    requires Visiting(p, s, r0, head, null, fired)
    ensures Linked(p.kept, head) && HasRotations(p.kept, Lowered(r0))
    ensures fired == Expiring(s, r0) && p.kept == Waiting(s, r0)
  {
    assert p.rest == [] && p.Slot() == p.kept && p.low + p.r == p.low;
    assert p.fired + [] == p.fired && p.kept + [] == p.kept && p.low + [] == p.low;
  }

  /** The visit of one slot: lower the rotation of the timers that stay, fire and unlink the others. */
  method Visit(head: TwTimer?, ghost s: seq<TwTimer>, ghost r: seq<int>)
    returns (head': TwTimer?, fired: seq<TwTimer>, ghost kept: seq<TwTimer>)
    requires Linked(s, head) && HasRotations(s, r)
    modifies s`prev, s`next, s`rotation
    ensures Linked(kept, head') && HasRotations(kept, Lowered(r))
    ensures fired == Expiring(s, r) && kept == Waiting(s, r)
  {
    head', fired := head, [];
    ghost var p := VisitBegins(s, r, head);
    var tmp := head;
    while tmp != null
      invariant Visiting(p, s, r, head', tmp, fired)
      decreases |p.rest|
    {
      tmp, head', fired, p := VisitOne(tmp, head', fired, p, s, r);
    }
    kept := p.kept;
    VisitEnds(p, s, r, head', fired);
  }

  /** Puts a new timer in front of its slot. */
  method PushFront(head: TwTimer?, timer: TwTimer, ghost s: seq<TwTimer>)
    requires Linked(s, head) && timer !in s && timer.prev == null && timer.next == null
    modifies s`prev, timer`next
    ensures Linked([timer] + s, timer)
  {
    if head != null {
      timer.next := head;
      head.prev := timer;
    }
  }

  ghost function RotationOf(timers: set<TwTimer>): (was: map<TwTimer, int>)
    reads timers`rotation
    ensures was.Keys == timers && forall t | t in timers :: was[t] == t.rotation
    decreases timers
  {
    if t :| t in timers then RotationOf(timers - {t})[t := t.rotation] else map[]
  }

  lemma Snapshot(timers: set<TwTimer>) returns (was: map<TwTimer, int>)
    ensures was.Keys == timers && forall t | t in timers :: was[t] == t.rotation
  {
    was := RotationOf(timers);
  }

  /** `was` records the rotations `r` of `s`. */
  ghost predicate Records(was: map<TwTimer, int>, s: seq<TwTimer>, r: seq<int>) {
    |s| == |r| && forall i | 0 <= i < |s| :: s[i] in was && was[s[i]] == r[i]
  }

  /** What a visit selects, for timers whose rotations were `was`. */
  lemma {:induction false} VisitSelects(s: seq<TwTimer>, r: seq<int>, was: map<TwTimer, int>)
    requires Records(was, s, r)
    ensures forall t :: t in Expiring(s, r) <==> t in s && was[t] <= 0
    ensures forall t :: t in Waiting(s, r) <==> t in s && was[t] > 0
  {
    if s != [] {
      VisitSelects(s[1..], r[1..], was);
    }
  }

  lemma {:induction false} VisitLowers(s: seq<TwTimer>, r: seq<int>, was: map<TwTimer, int>)
    requires Records(was, s, r)
    ensures |Waiting(s, r)| == |Lowered(r)|
    ensures forall j | 0 <= j < |Lowered(r)| :: Waiting(s, r)[j] in was && Lowered(r)[j] == was[Waiting(s, r)[j]] - 1
  {
    if s != [] {
      VisitLowers(s[1..], r[1..], was);
    }
  }

  lemma WithinTail(s: seq<TwTimer>, rest: seq<TwTimer>)
    requires s != [] && Distinct(s) && Within(rest, s[1..])
    ensures Within(rest, s) && s[0] !in rest
  {
    forall t | t in rest ensures t in s && t != s[0] {
      var i :| 0 <= i < |s[1..]| && s[1..][i] == t;
      assert s[i + 1] == t;
    }
  }

  lemma Prepended(x: TwTimer, rest: seq<TwTimer>, s: seq<TwTimer>)
    requires s != [] && Distinct(s) && x == s[0] && Distinct(rest) && Within(rest, s[1..])
    ensures Distinct([x] + rest) && Within([x] + rest, s)
  {
    WithinTail(s, rest);
    assert forall i | 0 <= i < |rest| :: rest[i] in rest;
  }

  lemma {:induction false} VisitKeepsDistinct(s: seq<TwTimer>, r: seq<int>)
    requires |s| == |r| && Distinct(s)
    ensures Distinct(Expiring(s, r)) && Within(Expiring(s, r), s)
    ensures Distinct(Waiting(s, r)) && Within(Waiting(s, r), s)
  {
    if s != [] {
      VisitKeepsDistinct(s[1..], r[1..]);
      WithinTail(s, Expiring(s[1..], r[1..]));
      WithinTail(s, Waiting(s[1..], r[1..]));
      if r[0] <= 0 {
        Prepended(s[0], Expiring(s[1..], r[1..]), s);
      } else {
        Prepended(s[0], Waiting(s[1..], r[1..]), s);
      }
    }
  }

  /** The visit of one slot, in terms of the rotations `was` before it. */
  method VisitSlot(head: TwTimer?, ghost s: seq<TwTimer>, ghost was: map<TwTimer, int>)
    returns (head': TwTimer?, fired: seq<TwTimer>, ghost kept: seq<TwTimer>)
    requires Linked(s, head)
    requires Records(was, s, Rotations(s))
    modifies s`prev, s`next, s`rotation
    ensures Linked(kept, head') && Distinct(fired) && Within(kept, s)
    ensures forall t :: t in fired <==> t in s && was[t] <= 0
    ensures forall t :: t in kept <==> t in s && was[t] > 0
    ensures forall t | t in kept :: t.rotation == was[t] - 1
  {
    VisitSelects(s, Rotations(s), was);
    VisitLowers(s, Rotations(s), was);
    VisitKeepsDistinct(s, Rotations(s));
    head', fired, kept := Visit(head, s, Rotations(s));
  }

  // ----- The wheel

  ghost predicate NoNegativeRotation(s: seq<TwTimer>)
    reads s`rotation
  {
    forall t | t in s :: t.rotation >= 0
  }

  /** `timers` are the members of all slots, each in the slot of its number. */
  ghost predicate Partition(lists: seq<seq<TwTimer>>, timers: set<TwTimer>) {
    && |lists| == N
    && (forall i, k | 0 <= i < N && 0 <= k < |lists[i]| :: lists[i][k].slot == i && lists[i][k] in timers)
    && (forall t | t in timers :: t.slot < N && t in lists[t.slot])
  }

  lemma PartitionAdd(lists: seq<seq<TwTimer>>, timers: set<TwTimer>, t: TwTimer)
    requires Partition(lists, timers) && t.slot < N
    ensures Partition(lists[t.slot := [t] + lists[t.slot]], timers + {t})
  {
  }

  lemma PartitionKeep(lists: seq<seq<TwTimer>>, timers: set<TwTimer>, i: nat, kept: seq<TwTimer>)
    requires Partition(lists, timers) && i < N && Within(kept, lists[i])
    ensures Partition(lists[i := kept], set t | t in timers && (t.slot == i ==> t in kept))
  {
  }

  lemma PartitionRemove(lists: seq<seq<TwTimer>>, timers: set<TwTimer>, i: nat, k: nat)
    requires Partition(lists, timers) && i < N && k < |lists[i]| && Distinct(lists[i])
    ensures Partition(lists[i := Without(lists[i], k)], timers - {lists[i][k]})
    ensures forall t | t in Without(lists[i], k) :: t in lists[i]
  {
    RemovalLeaves(lists[i], k);
    var kept := Without(lists[i], k);
    forall j | 0 <= j < |kept| ensures kept[j].slot == i && kept[j] in timers - {lists[i][k]} {
      assert kept[j] in kept && kept[j] == lists[i][if j < k then j else j + 1];
    }
  }

  /** The number of further ticks that pass before a timer fires, on a wheel at slot `cur`. */
  ghost function Left(rotation: int, slot: nat, cur: nat): (n: int) {
    rotation * N + (slot - cur) % N
  }

  lemma LeftWhenAdded(cur: nat, ticks: nat)
    requires cur < N
    ensures Left(ticks / N, (cur + ticks % N) % N, cur) == ticks
  {
  }

  /** Nothing is left exactly for the timers that the visit of the current slot fires; for the others one tick less. */
  lemma LeftAfterTick(rotation: nat, slot: nat, cur: nat)
    requires cur < N && slot < N
    ensures Left(rotation, slot, cur) >= 0
    ensures Left(rotation, slot, cur) == 0 <==> slot == cur && rotation == 0
    ensures Left(rotation, slot, cur) > 0 ==>
              Left(if slot == cur then rotation - 1 else rotation, slot, (cur + 1) % N) == Left(rotation, slot, cur) - 1
  {
  }

  /** The same for all timers of a wheel, with the rotations `was` before the tick. */
  lemma LeftOfAll(timers: set<TwTimer>, was: map<TwTimer, int>, cur: nat)
    requires cur < N && was.Keys == timers && forall t | t in timers :: t.slot < N && was[t] >= 0
    ensures forall t | t in timers ::
              && Left(was[t], t.slot, cur) >= 0
              && (Left(was[t], t.slot, cur) == 0 <==> t.slot == cur && was[t] == 0)
              && (Left(was[t], t.slot, cur) > 0 ==>
                    Left(if t.slot == cur then was[t] - 1 else was[t], t.slot, (cur + 1) % N)
                    == Left(was[t], t.slot, cur) - 1)
  {
    forall t | t in timers {
      LeftAfterTick(was[t], t.slot, cur);
    }
  }

  lemma MembersOfSlot(lists: seq<seq<TwTimer>>, timers: set<TwTimer>, i: nat)
    requires Partition(lists, timers) && i < N
    ensures forall t :: t in lists[i] <==> t in timers && t.slot == i
  {
    forall t | t in lists[i] ensures t in timers && t.slot == i {
      var k :| 0 <= k < |lists[i]| && lists[i][k] == t;
    }
  }

  /** All slots but `i` are well formed. */
  ghost predicate OthersOk(lists: seq<seq<TwTimer>>, heads: seq<TwTimer?>, timers: set<TwTimer>, i: nat)
    requires Partition(lists, timers) && |heads| == N
    reads (set t | t in timers && t.slot != i)`prev, (set t | t in timers && t.slot != i)`next
    reads (set t | t in timers && t.slot != i)`rotation
  {
    forall j | 0 <= j < N && j != i :: Linked(lists[j], heads[j]) && NoNegativeRotation(lists[j])
  }

  class TimeWheel {
    var slots: array<TwTimer?>
    var cur: nat
    /** The timers of each slot, and of all slots. */
    ghost var lists: seq<seq<TwTimer>>
    ghost var timers: set<TwTimer>

    ghost predicate Valid()
      reads this, slots, timers`prev, timers`next, timers`rotation
    {
      && slots.Length == N && cur < N && Partition(lists, timers)
      && (forall i | 0 <= i < N :: Linked(lists[i], slots[i]))
      && (forall i | 0 <= i < N :: NoNegativeRotation(lists[i]))
    }

    /** The number of further ticks that pass before the tick on which `t` fires. */
    ghost function Remaining(t: TwTimer): (n: int)
      reads this`cur, t`rotation
    {
      Left(t.rotation, t.slot, cur)
    }

    constructor ()
      ensures Valid() && timers == {} && fresh(slots)
    {
      slots := new TwTimer?[N](_ => null);
      cur := 0;
      lists := seq(N, _ => []);
      timers := {};
    }

    /** Gives slot `i` a new head and new contents. */
    method Install(i: nat, head: TwTimer?, ghost kept: seq<TwTimer>, ghost members: set<TwTimer>)
      requires slots.Length == N && cur < N && i < N && Partition(lists, timers)
      requires OthersOk(lists, slots[..], timers, i)
      requires Linked(kept, head) && NoNegativeRotation(kept) && Partition(lists[i := kept], members)
      modifies this`lists, this`timers, slots
      ensures Valid() && slots == old(slots) && timers == members
    {
      slots[i] := head;
      lists := lists[i := kept];
      timers := members;
    }

    /** Links a new timer into the slot of its number. */
    method Link(timer: TwTimer)
      requires Valid() && timer.slot < N && timer.rotation >= 0
      requires timer !in timers && timer.prev == null && timer.next == null
      modifies this`lists, this`timers, slots, timers`prev, timer`next
      ensures Valid() && slots == old(slots) && timers == old(timers) + {timer}
    {
      var ts := timer.slot;
      assert OthersOk(lists, slots[..], timers, ts);
      PushFront(slots[ts], timer, lists[ts]);
      PartitionAdd(lists, timers, timer);
      Install(ts, timer, [timer] + lists[ts], timers + {timer});
    }

    method AddTimer(timeout: int) returns (timer: TwTimer?)
      requires Valid()
      modifies this`lists, this`timers, slots, timers`prev
      ensures Valid() && slots == old(slots)
      ensures timer == null <==> timeout < 0
      ensures timer == null ==> timers == old(timers)
      ensures timer != null ==> fresh(timer) && timers == old(timers) + {timer}
      ensures timer != null ==> Remaining(timer) == if timeout < 1 then 1 else timeout
    {
      if timeout < 0 {
        return null;
      }
      var ticks := if timeout < 1 then 1 else timeout;
      var rotation := ticks / N;
      var ts := (cur + ticks % N) % N;
      timer := new TwTimer(rotation, ts);
      Link(timer);
      LeftWhenAdded(cur, ticks);
    }

    /** Unlinks a timer from the slot of its number. */
    method Remove(timer: TwTimer, ghost k: nat)
      requires Valid()
      requires timer in timers && k < |lists[timer.slot]| && lists[timer.slot][k] == timer
      modifies this`lists, this`timers, slots, timers`prev, timers`next
      ensures Valid() && slots == old(slots) && timers == old(timers) - {timer}
    {
      var ts := timer.slot;
      assert OthersOk(lists, slots[..], timers, ts);
      PartitionRemove(lists, timers, ts, k);
      var head := Unlink(slots[ts], timer, lists[ts], k);
      Install(ts, head, Without(lists[ts], k), timers - {timer});
    }

    method DelTimer(timer: TwTimer?, ghost k: nat)
      requires Valid()
      requires timer != null ==> timer in timers && k < |lists[timer.slot]| && lists[timer.slot][k] == timer
      modifies this`lists, this`timers, slots, timers`prev, timers`next
      ensures Valid() && slots == old(slots)
      ensures timers == if timer == null then old(timers) else old(timers) - {timer}
    {
      if timer == null {
        return;
      }
      Remove(timer, k);
    }

    lemma MembersAreValid()
      requires Valid()
      ensures forall t | t in timers :: t.slot < N && t.rotation >= 0
    {
    }

    /** What is known of the current slot, and of all others, when its visit begins. */
    lemma CurrentSlot(was: map<TwTimer, int>)
      requires Valid() && was.Keys == timers && forall t | t in timers :: was[t] == t.rotation
      ensures OthersOk(lists, slots[..], timers, cur)
      ensures Linked(lists[cur], slots[cur]) && Records(was, lists[cur], Rotations(lists[cur]))
      ensures forall t :: t in lists[cur] <==> t in timers && t.slot == cur
      ensures forall t | t in timers :: was[t] >= 0
    {
      MembersOfSlot(lists, timers, cur);
      MembersAreValid();
    }

    /** The visit of the list of the current slot. */
    method VisitList(ghost was: map<TwTimer, int>)
      returns (head: TwTimer?, fired: seq<TwTimer>, ghost kept: seq<TwTimer>)
      requires slots.Length == N && cur < N && Partition(lists, timers) && OthersOk(lists, slots[..], timers, cur)
      requires Linked(lists[cur], slots[cur]) && Records(was, lists[cur], Rotations(lists[cur]))
      requires forall t :: t in lists[cur] <==> t in timers && t.slot == cur
      requires was.Keys == timers && forall t | t in timers :: was[t] == t.rotation
      modifies lists[cur]`prev, lists[cur]`next, lists[cur]`rotation
      ensures OthersOk(lists, slots[..], timers, cur) && Linked(kept, head) && NoNegativeRotation(kept)
      ensures Distinct(fired) && Within(kept, lists[cur])
      ensures forall t :: t in fired <==> t in timers && t.slot == cur && was[t] <= 0
      ensures forall t :: t in kept <==> t in timers && t.slot == cur && was[t] > 0
      ensures forall t | t in timers :: t.slot != cur ==> t.rotation == was[t]
      ensures forall t | t in kept :: t.rotation == was[t] - 1
    {
      head, fired, kept := VisitSlot(slots[cur], lists[cur], was);
    }

    /** The timers that stay after the visit of the current slot. */
    lemma StayingMembers(was: map<TwTimer, int>, kept: seq<TwTimer>) returns (members: set<TwTimer>)
      requires cur < N && Partition(lists, timers) && Within(kept, lists[cur]) && was.Keys == timers
      requires forall t :: t in kept <==> t in timers && t.slot == cur && was[t] > 0
      requires forall t | t in timers :: t.slot != cur ==> t.rotation == was[t]
      requires forall t | t in kept :: t.rotation == was[t] - 1
      ensures members == set t | t in was && (t.slot == cur ==> was[t] > 0)
      ensures Partition(lists[cur := kept], members)
      ensures forall t | t in members :: t.rotation == if t.slot == cur then was[t] - 1 else was[t]
    {
      members := set t | t in was && (t.slot == cur ==> was[t] > 0);
      PartitionKeep(lists, timers, cur, kept);
      assert members == set t | t in timers && (t.slot == cur ==> t in kept);
    }

    /** The visit of the current slot, before the wheel turns; `was` are the rotations on entry. */
    method VisitCurrent(ghost was: map<TwTimer, int>) returns (fired: seq<TwTimer>)
      requires Valid() && was.Keys == timers && forall t | t in timers :: was[t] == t.rotation
      modifies this`lists, this`timers, slots, timers`prev, timers`next, timers`rotation
      ensures Valid() && slots == old(slots) && Distinct(fired)
      ensures forall t :: t in fired <==> t in was && t.slot == cur && was[t] == 0
      ensures timers == set t | t in was && (t.slot == cur ==> was[t] > 0)
      ensures forall t | t in timers :: t.rotation == if t.slot == cur then was[t] - 1 else was[t]
    {
      ghost var kept;
      var head;
      CurrentSlot(was);
      head, fired, kept := VisitList(was);
      ghost var members := StayingMembers(was, kept);
      Install(cur, head, kept, members);
    }

    /** `cur_slot` moves on. */
    method Turn()
      requires Valid()
      modifies this`cur
      ensures Valid() && cur == (old(cur) + 1) % N
    {
      cur := (cur + 1) % N;
    }

    /** Fires exactly the timers with nothing remaining, and brings every other one exactly one tick closer. */
    method Tick() returns (fired: seq<TwTimer>)
      requires Valid()
      modifies this`lists, this`timers, this`cur, slots, timers`prev, timers`next, timers`rotation
      ensures Valid() && slots == old(slots)
      ensures Distinct(fired) && forall t :: t in fired <==> t in old(timers) && old(Remaining(t)) == 0
      ensures timers == set t | t in old(timers) && old(Remaining(t)) > 0
      ensures forall t | t in timers :: Remaining(t) == old(Remaining(t)) - 1
    {
      ghost var was := Snapshot(timers);
      MembersAreValid();
      LeftOfAll(timers, was, cur);
      fired := VisitCurrent(was);
      Turn();
    }
  }
}
