/** The server of `nonactive_conn.cpp`: it closes the connections that stayed idle for three time slots. */
module Reaper {
  import opened TimerSpec
  import opened Sequences
  import opened SortedList
  import opened ListRun

  const TIMESLOT: int := 5

  /** What the event loop handles. `Gone` is end of file or a receive error other than `EAGAIN`. */
  datatype Event = Accept(fd: int) | Data(fd: int) | Again(fd: int) | Gone(fd: int) | Alarm | EndOfBatch

  datatype Step = Step(now: int, ev: Event)

  /** For each open connection the time of its last accept or successful receive; and the pending alarm flag. */
  datatype State = State(last: map<int, int>, timeout: bool)

  /** The deadlines of the timers of connections with these times. */
  ghost predicate AreDeadlines(live: Live, last: map<int, int>) {
    live.Keys == last.Keys && forall fd | fd in last :: live[fd] == last[fd] + 3 * TIMESLOT
  }

  function Idle(last: map<int, int>, now: int): (idle: set<int>) {
    set fd | fd in last && last[fd] <= now - 3 * TIMESLOT
  }

  function Next(s: State, step: Step): (s': State) {
    match step.ev
    case Accept(fd) => s.(last := s.last[fd := step.now])
    case Data(fd) => s.(last := s.last[fd := step.now])
    case Again(fd) => s
    case Gone(fd) => s.(last := s.last - {fd})
    case Alarm => s.(timeout := true)
    case EndOfBatch => if s.timeout then State(s.last - Idle(s.last, step.now), false) else s
  }

  function After(steps: seq<Step>): (s': State) {
    if steps == [] then State(map[], false) else Next(After(steps[..|steps| - 1]), steps[|steps| - 1])
  }

  ghost predicate Enabled(s: State, ev: Event) {
    match ev
    case Accept(fd) => fd !in s.last
    case Data(fd) => fd in s.last
    case Again(fd) => fd in s.last
    case Gone(fd) => fd in s.last
    case _ => true
  }

  /**
   * `closed` is what a step may close, in order: a connection that is gone; and at the end of a batch with a pending
   * alarm exactly the idle connections, each once, the longest idle ones first.
   */
  ghost predicate Closes(s: State, step: Step, closed: seq<int>) {
    match step.ev
    case Gone(fd) => closed == [fd]
    case EndOfBatch =>
      if s.timeout then
        && (forall i, j | 0 <= i < j < |closed| :: closed[i] != closed[j])
        && (forall fd :: fd in closed <==> fd in Idle(s.last, step.now))
        && AllLive(s.last, closed)
        && (forall i, j | 0 <= i < j < |closed| :: s.last[closed[i]] <= s.last[closed[j]])
      else closed == []
    case _ => closed == []
  }

  // ----- What the run of the specification means

  lemma AfterStep(steps: seq<Step>, k: nat)
    requires k < |steps|
    ensures After(steps[..k + 1]) == Next(After(steps[..k]), steps[k])
  {
    assert steps[..k + 1][..k] == steps[..k];
  }

  /** An alarm came, and no batch has ended since. */
  ghost predicate AlarmPending(steps: seq<Step>, k: nat)
    requires k <= |steps|
  {
    exists a | 0 <= a < k :: steps[a].ev.Alarm? && forall i | a < i < k :: !steps[i].ev.EndOfBatch?
  }

  ghost predicate Touches(ev: Event, fd: int) {
    ev == Accept(fd) || ev == Data(fd)
  }

  /**
   * Before step `k`, the last accept or successful receive of `fd` was step `j`, and the connection has neither been
   * lost since nor was it idle for three time slots when a batch with an alarm ended.
   */
  ghost predicate OpenSince(steps: seq<Step>, fd: int, j: nat, k: nat)
    requires k <= |steps|
  {
    && j < k && Touches(steps[j].ev, fd)
    && (forall i | j < i < k :: !Touches(steps[i].ev, fd) && steps[i].ev != Gone(fd))
    && (forall i | j < i < k && steps[i].ev.EndOfBatch? && AlarmPending(steps, i) ::
          steps[i].now - 3 * TIMESLOT < steps[j].now)
  }

  ghost predicate IsOpen(steps: seq<Step>, fd: int, k: nat)
    requires k <= |steps|
  {
    exists j: nat :: OpenSince(steps, fd, j, k)
  }

  /** The flag is set exactly when an alarm came and no batch has ended since. */
  lemma {:induction false} TimeoutIff(steps: seq<Step>, k: nat)
    requires k <= |steps|
    ensures After(steps[..k]).timeout <==> AlarmPending(steps, k)
    decreases k
  {
    if k > 0 {
      var n := k - 1;
      TimeoutIff(steps, n);
      AfterStep(steps, n);
      if steps[n].ev.Alarm? || (AlarmPending(steps, n) && !steps[n].ev.EndOfBatch?) {
        var a :| 0 <= a < k && steps[a].ev.Alarm? && forall i | a < i < n :: !steps[i].ev.EndOfBatch?;
        assert AlarmPending(steps, k);
      }
    }
  }

  /** The recorded time is that of the last accept or successful receive, with neither loss nor reaping since. */
  lemma {:induction false} LastActivity(steps: seq<Step>, fd: int, k: nat) returns (j: nat)
    requires k <= |steps| && fd in After(steps[..k]).last
    ensures OpenSince(steps, fd, j, k) && steps[j].now == After(steps[..k]).last[fd]
    decreases k
  {
    var n := k - 1;
    AfterStep(steps, n);
    if Touches(steps[n].ev, fd) {
      j := n;
    } else {
      j := LastActivity(steps, fd, n);
      TimeoutIff(steps, n);
    }
  }

  /** Conversely, a connection that was touched, with neither loss nor a due reaping since, is open with that time. */
  lemma {:induction false} StillOpen(steps: seq<Step>, fd: int, j: nat, k: nat)
    requires k <= |steps| && OpenSince(steps, fd, j, k)
    ensures fd in After(steps[..k]).last && After(steps[..k]).last[fd] == steps[j].now
    decreases k
  {
    var n := k - 1;
    AfterStep(steps, n);
    if j < n {
      StillOpen(steps, fd, j, n);
      TimeoutIff(steps, n);
    }
  }

  lemma OpenIff(steps: seq<Step>, fd: int, k: nat)
    requires k <= |steps|
    ensures fd in After(steps[..k]).last <==> IsOpen(steps, fd, k)
  {
    if fd in After(steps[..k]).last {
      var j := LastActivity(steps, fd, k);
    } else if IsOpen(steps, fd, k) {
      var j: nat :| OpenSince(steps, fd, j, k);
      StillOpen(steps, fd, j, k);
    }
  }

  /** The kernel accepts with a descriptor that is not open, and reports open ones. */
  ghost predicate CanHappen(steps: seq<Step>, k: nat)
    requires k < |steps|
  {
    match steps[k].ev
    case Accept(fd) => !IsOpen(steps, fd, k)
    case Data(fd) => IsOpen(steps, fd, k)
    case Again(fd) => IsOpen(steps, fd, k)
    case Gone(fd) => IsOpen(steps, fd, k)
    case _ => true
  }

  /** The clock does not run backwards, and every step can happen. */
  ghost predicate Legal(steps: seq<Step>) {
    && (forall j, k | 0 <= j < k < |steps| :: steps[j].now <= steps[k].now)
    && (forall k | 0 <= k < |steps| :: CanHappen(steps, k))
  }

  lemma LegalIsEnabled(steps: seq<Step>, k: nat)
    requires Legal(steps) && k < |steps|
    ensures Enabled(After(steps[..k]), steps[k].ev)
  {
    assert CanHappen(steps, k);
    match steps[k].ev
    case Accept(fd) => OpenIff(steps, fd, k);
    case Data(fd) => OpenIff(steps, fd, k);
    case Again(fd) => OpenIff(steps, fd, k);
    case Gone(fd) => OpenIff(steps, fd, k);
    case _ =>
  }

  /** An alarm is pending, and the last accept or receive of the open `fd` is at least three time slots ago. */
  ghost predicate IsDue(steps: seq<Step>, fd: int, k: nat)
    requires k < |steps|
  {
    AlarmPending(steps, k) && exists j: nat :: OpenSince(steps, fd, j, k) && steps[j].now <= steps[k].now - 3 * TIMESLOT
  }

  /** The longest idle ones come first. */
  ghost predicate LongestIdleFirst(steps: seq<Step>, closed: seq<int>, k: nat)
    requires k < |steps|
  {
    forall a, b, i: nat, j: nat
      | 0 <= a < b < |closed| && OpenSince(steps, closed[a], i, k) && OpenSince(steps, closed[b], j, k)
      :: steps[i].now <= steps[j].now
  }

  /**
   * What step `k` closes, told by the steps alone: a connection that is gone; and at the end of a batch exactly those
   * that are due, each once, the longest idle ones first.
   */
  ghost predicate ClosesAt(steps: seq<Step>, k: nat, closed: seq<int>)
    requires k < |steps|
  {
    match steps[k].ev
    case Gone(fd) => closed == [fd]
    case EndOfBatch =>
      && (forall a, b | 0 <= a < b < |closed| :: closed[a] != closed[b])
      && (forall fd :: fd in closed <==> IsDue(steps, fd, k))
      && LongestIdleFirst(steps, closed, k)
    case _ => closed == []
  }

  lemma IdleIff(steps: seq<Step>, fd: int, k: nat)
    requires k < |steps|
    ensures fd in Idle(After(steps[..k]).last, steps[k].now)
       <==> exists j: nat :: OpenSince(steps, fd, j, k) && steps[j].now <= steps[k].now - 3 * TIMESLOT
  {
    if fd in After(steps[..k]).last {
      var i := LastActivity(steps, fd, k);
    }
    if j: nat :| OpenSince(steps, fd, j, k) && steps[j].now <= steps[k].now - 3 * TIMESLOT {
      StillOpen(steps, fd, j, k);
    }
  }

  lemma LongestFirst(steps: seq<Step>, closed: seq<int>, k: nat)
    requires k < |steps| && steps[k].ev.EndOfBatch? && Closes(After(steps[..k]), steps[k], closed)
    ensures LongestIdleFirst(steps, closed, k)
  {
    forall a, b, i: nat, j: nat
      | 0 <= a < b < |closed| && OpenSince(steps, closed[a], i, k) && OpenSince(steps, closed[b], j, k)
      ensures steps[i].now <= steps[j].now
    {
      StillOpen(steps, closed[a], i, k);
      StillOpen(steps, closed[b], j, k);
    }
  }

  /** What a step may close in the state of the specification is what the steps alone say. */
  lemma ClosesWhatIsDue(steps: seq<Step>, closed: seq<int>, k: nat)
    requires k < |steps| && Closes(After(steps[..k]), steps[k], closed)
    ensures ClosesAt(steps, k, closed)
  {
    if steps[k].ev.EndOfBatch? {
      TimeoutIff(steps, k);
      LongestFirst(steps, closed, k);
      forall fd ensures fd in closed <==> IsDue(steps, fd, k) {
        IdleIff(steps, fd, k);
      }
    }
  }

  lemma DeadlinesAfterTouch(live: Live, last: map<int, int>, fd: int, now: int)
    requires AreDeadlines(live, last)
    ensures AreDeadlines(live[fd := now + 3 * TIMESLOT], last[fd := now])
  {
  }

  lemma DeadlinesAfterGone(live: Live, last: map<int, int>, fd: int)
    requires AreDeadlines(live, last)
    ensures AreDeadlines(Apply(live, Del(fd)), last - {fd})
  {
  }

  lemma DeadlinesAfterReap(live: Live, last: map<int, int>, now: int)
    requires AreDeadlines(live, last)
    ensures AreDeadlines(Apply(live, Tick(now)), last - Idle(last, now))
  {
    forall fd ensures fd in Apply(live, Tick(now)) <==> fd in last - Idle(last, now) {
      assert fd in last ==> live[fd] == last[fd] + 3 * TIMESLOT;
    }
  }

  /** A firing of the timers closes what may be closed. */
  lemma FiringCloses(s: State, live: Live, now: int, closed: seq<int>)
    requires s.timeout && AreDeadlines(live, s.last) && FiringAt(live, now, closed)
    ensures Closes(s, Step(now, EndOfBatch), closed)
  {
    assert forall i | 0 <= i < |closed| :: closed[i] in live;
    forall fd ensures fd in closed <==> fd in Idle(s.last, now) {
      assert fd in closed <==> fd in live && live[fd] <= now;
    }
  }

  lemma TracksAfterAdjust(s: seq<UtilTimer>, k: nat, k': nat, live: Live, held: map<int, UtilTimer>, e: int)
    requires k < |s| && k' < |s| && Distinct(s)
    requires forall n | n in s :: n.user in live && n.user in held && held[n.user] == n
    requires forall n | n in s :: n.expire == if n == s[k] then e else live[n.user]
    requires forall id | id in live :: id in held && held[id] in s && held[id].user == id
    ensures Tracks(InsertAt(Without(s, k), k', s[k]), live[s[k].user := e], held)
    ensures forall n :: n in InsertAt(Without(s, k), k', s[k]) <==> n in s
  {
    RemovalLeaves(s, k);
    var rest := Without(s, k);
    var s' := InsertAt(rest, k', s[k]);
    assert s'[k'] == s[k] && s[k] in s;
    forall n | n in rest ensures n in s' {
      var i :| 0 <= i < |rest| && rest[i] == n;
      assert s'[if i < k' then i else i + 1] == n;
    }
  }

  /** Sets a deadline that is not before the old one: the rest of the list stays ordered, and so do the predecessors. */
  method Renew(l: SortTimerLst, timer: UtilTimer, ghost k: nat, e: int)
    requires l.Valid() && k < |l.nodes| && l.nodes[k] == timer && timer.expire <= e
    modifies timer`expire
    ensures l.Linked() && SortedNodes(Without(l.nodes, k)) && timer.expire == e
    ensures k == 0 || l.nodes[k - 1].expire <= e
  {
    assert k > 0 ==> l.nodes[k - 1].expire <= timer.expire;
    WithoutKeepsOrder(l.nodes, k);
    RemovalLeaves(l.nodes, k);
    timer.expire := e;
  }

  /** The handler of a successful receive: a new deadline, not before the old one, and `adjust_timer`. */
  method Extend(l: SortTimerLst, timer: UtilTimer, ghost live: Live, ghost held: map<int, UtilTimer>, e: int)
    requires Holds(l, live, held) && timer in l.nodes && live[timer.user] <= e
    modifies l, l.nodes`prev, l.nodes`next, timer`expire
    ensures Holds(l, live[timer.user := e], held)
    ensures forall n :: n in l.nodes <==> n in old(l.nodes)
  {
    ghost var s := l.nodes;
    ghost var k :| 0 <= k < |s| && s[k] == timer;
    Renew(l, timer, k, e);
    assert forall n | n in s :: n.expire == if n == s[k] then e else live[n.user];
    ghost var k' := l.AdjustTimer(timer, k);
    TracksAfterAdjust(s, k, k', live, held, e);
  }

  lemma ClosedAreIdle(live: Live, last: map<int, int>, now: int, closed: seq<int>)
    requires AreDeadlines(live, last) && FiringAt(live, now, closed)
    ensures (set j | 0 <= j < |closed| :: closed[j]) == Idle(last, now)
  {
    forall fd ensures fd in (set j | 0 <= j < |closed| :: closed[j]) <==> fd in Idle(last, now) {
      assert fd in closed <==> fd in live && live[fd] <= now;
    }
  }

  // ----- The server

  class Server {
    const timerLst: SortTimerLst
    /** `users[fd].timer` of the table of client data; entries of closed connections are not cleared. */
    var users: map<int, UtilTimer>
    /** The client connections the kernel has open. */
    var open: set<int>
    var timeout: bool
    ghost var last: map<int, int>
    ghost var live: Live

    ghost predicate Valid()
      reads this, timerLst, timerLst.nodes
    {
      Holds(timerLst, live, users) && AreDeadlines(live, last) && open == last.Keys
    }

    constructor ()
      ensures Valid() && last == map[] && !timeout && fresh(timerLst) && timerLst.nodes == []
    {
      timerLst := new SortTimerLst();
      users, open, timeout := map[], {}, false;
      last, live := map[], map[];
    }

    /** `cb_func`: close the descriptor. */
    method Close(fd: int)
      modifies this`open
      ensures open == old(open) - {fd}
    {
      open := open - {fd};
    }

    /** A timer for a new connection. */
    method Arm(connfd: int, expire: int)
      requires Holds(timerLst, live, users) && connfd !in live
      modifies this`users, this`live, timerLst, timerLst.nodes`prev, timerLst.nodes`next
      ensures Holds(timerLst, live, users) && live == old(live)[connfd := expire]
      ensures forall n | n in timerLst.nodes :: n in old(timerLst.nodes) || fresh(n)
    {
      users := StepAdd(timerLst, live, users, connfd, expire);
      live := Apply(live, Add(connfd, expire));
    }

    method OnAccept(connfd: int, now: int)
      requires Valid() && connfd !in last
      modifies this`users, this`open, this`last, this`live, timerLst, timerLst.nodes`prev, timerLst.nodes`next
      ensures Valid() && last == old(last)[connfd := now]
      ensures forall n | n in timerLst.nodes :: n in old(timerLst.nodes) || fresh(n)
    {
      DeadlinesAfterTouch(live, last, connfd, now);
      Arm(connfd, now + 3 * TIMESLOT);
      open, last := open + {connfd}, last[connfd := now];
      assert open == last.Keys;
    }

    method OnData(sockfd: int, now: int)
      requires Valid() && sockfd in last && last[sockfd] <= now
      modifies this`last, this`live, timerLst, timerLst.nodes
      ensures Valid() && last == old(last)[sockfd := now]
      ensures forall n | n in timerLst.nodes :: n in old(timerLst.nodes)
    {
      DeadlinesAfterTouch(live, last, sockfd, now);
      Extend(timerLst, users[sockfd], live, users, now + 3 * TIMESLOT);
      assert open == last[sockfd := now].Keys;
      last, live := last[sockfd := now], live[sockfd := now + 3 * TIMESLOT];
    }

    method OnGone(sockfd: int)
      requires Valid() && sockfd in last
      modifies this`open, this`last, this`live, timerLst, timerLst.nodes`prev, timerLst.nodes`next
      ensures Valid() && last == old(last) - {sockfd}
      ensures forall n | n in timerLst.nodes :: n in old(timerLst.nodes)
    {
      DeadlinesAfterGone(live, last, sockfd);
      Close(sockfd);
      StepDel(timerLst, live, users, sockfd);
      last, live := last - {sockfd}, Apply(live, Del(sockfd));
    }

    /** The callbacks of the timers that fire. */
    method CloseAll(closed: seq<int>)
      modifies this`open
      ensures open == old(open) - set j | 0 <= j < |closed| :: closed[j]
    {
      for i := 0 to |closed|
        modifies this`open
        invariant open == old(open) - set j | 0 <= j < i :: closed[j]
      {
        Close(closed[i]);
      }
    }

    /** `tick`; `closed` are the connections whose callbacks run. */
    method Fire(now: int) returns (closed: seq<int>)
      requires Holds(timerLst, live, users)
      modifies this`live, timerLst, timerLst.nodes`prev, timerLst.nodes`next
      ensures Holds(timerLst, live, users) && live == Apply(old(live), Tick(now))
      ensures FiringAt(old(live), now, closed)
      ensures forall n | n in timerLst.nodes :: n in old(timerLst.nodes)
    {
      closed := StepTick(timerLst, live, users, now);
      live := Apply(live, Tick(now));
    }

    /** `timer_handler`: the callback of every timer that fires closes its connection. */
    method TimerHandler(now: int) returns (closed: seq<int>)
      requires Valid()
      modifies this`open, this`last, this`live, timerLst, timerLst.nodes`prev, timerLst.nodes`next
      ensures Valid() && last == old(last) - Idle(old(last), now)
      ensures FiringAt(old(live), now, closed)
      ensures forall n | n in timerLst.nodes :: n in old(timerLst.nodes)
    {
      DeadlinesAfterReap(live, last, now);
      closed := Fire(now);
      ClosedAreIdle(old(live), last, now, closed);
      CloseAll(closed);
      last := last - Idle(last, now);
      assert open == last.Keys;
    }

    /** One step of the event loop; `closed` records the connections it closes. */
    method Handle(step: Step) returns (closed: seq<int>)
      requires Valid() && Enabled(State(last, timeout), step.ev)
      requires forall fd | fd in last :: last[fd] <= step.now
      modifies this, timerLst, timerLst.nodes
      ensures Valid() && State(last, timeout) == Next(old(State(last, timeout)), step)
      ensures Closes(old(State(last, timeout)), step, closed)
      ensures timeout <==> step.ev.Alarm? || (old(timeout) && !step.ev.EndOfBatch?)
      ensures forall n | n in timerLst.nodes :: n in old(timerLst.nodes) || fresh(n)
    {
      closed := [];
      match step.ev
      case Accept(fd) => OnAccept(fd, step.now);
      case Data(fd) => OnData(fd, step.now);
      case Again(fd) =>
      case Gone(fd) =>
        OnGone(fd);
        closed := [fd];
      case Alarm => timeout := true;
      case EndOfBatch =>
        if timeout {
          closed := TimerHandler(step.now);
          FiringCloses(State(old(last), true), old(live), step.now, closed);
          timeout := false;
        }
    }
  }

  /** Recorded times are not in the future. */
  lemma TimesAreBounded(steps: seq<Step>, k: nat)
    requires Legal(steps) && k < |steps|
    ensures forall fd | fd in After(steps[..k]).last :: After(steps[..k]).last[fd] <= steps[k].now
  {
    forall fd | fd in After(steps[..k]).last ensures After(steps[..k]).last[fd] <= steps[k].now {
      var j := LastActivity(steps, fd, k);
    }
  }

  ghost predicate LogCloses(steps: seq<Step>, log: seq<seq<int>>) {
    |log| <= |steps| && forall k | 0 <= k < |log| :: ClosesAt(steps, k, log[k])
  }

  lemma LogExtends(steps: seq<Step>, log: seq<seq<int>>, closed: seq<int>)
    requires LogCloses(steps, log) && |log| < |steps| && ClosesAt(steps, |log|, closed)
    ensures LogCloses(steps, log + [closed])
  {
  }

  /** The server and the log after the first `k` steps. */
  ghost predicate Reached(s: Server, steps: seq<Step>, k: nat, log: seq<seq<int>>)
    requires k <= |steps|
    reads s, s.timerLst, s.timerLst.nodes
  {
    s.Valid() && State(s.last, s.timeout) == After(steps[..k]) && |log| == k && LogCloses(steps, log)
  }

  method Advance(s: Server, steps: seq<Step>, k: nat, log: seq<seq<int>>) returns (log': seq<seq<int>>)
    requires Legal(steps) && k < |steps| && Reached(s, steps, k, log)
    modifies s, s.timerLst, s.timerLst.nodes
    ensures Reached(s, steps, k + 1, log')
    ensures forall i | 0 <= i < |s.timerLst.nodes| ::
              s.timerLst.nodes[i] in old(s.timerLst.nodes) || fresh(s.timerLst.nodes[i])
  {
    TimesAreBounded(steps, k);
    AfterStep(steps, k);
    LegalIsEnabled(steps, k);
    var closed := s.Handle(steps[k]);
    ClosesWhatIsDue(steps, closed, k);
    LogExtends(steps, log, closed);
    log' := log + [closed];
    assert forall i | 0 <= i < |s.timerLst.nodes| :: s.timerLst.nodes[i] in s.timerLst.nodes;
  }

  /**
   * In every legal run, each step closes exactly what the steps before it make due, and at the end the connections
   * left open are those that were neither lost nor reaped since they were last touched.
   */
  method Serve(steps: seq<Step>) returns (log: seq<seq<int>>, open: set<int>)
    requires Legal(steps)
    ensures |log| == |steps| && LogCloses(steps, log)
    ensures forall fd :: fd in open <==> IsOpen(steps, fd, |steps|)
  {
    var s := new Server();
    log := [];
    for k := 0 to |steps|
      invariant fresh(s) && fresh(s.timerLst) && forall i | 0 <= i < |s.timerLst.nodes| :: fresh(s.timerLst.nodes[i])
      invariant Reached(s, steps, k, log)
    {
      log := Advance(s, steps, k, log);
    }
    open := s.open;
    forall fd ensures fd in open <==> IsOpen(steps, fd, |steps|) {
      OpenIff(steps, fd, |steps|);
    }
  }
}
