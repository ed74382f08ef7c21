/**
 * The hand-off of accepted descriptors in `serv08.c`: one acceptor, any number of threads, a circular array, a mutex
 * and a condition variable. Every step between two shared accesses is a step of its own.
 */
module RingServer {
  import opened Maps

  const MAXNCLI: nat := 32

  /** Where a thread is in `thread_main`. */
  datatype Consumer =
    | ToLock              // before pthread_mutex_lock
    | Testing             // holds the mutex, before the test of the while loop
    | Blocked             // inside pthread_cond_wait, without the mutex
    | Woken               // inside pthread_cond_wait, unblocked, before it has the mutex again
    | Taking              // holds the mutex, found the queue not empty
    | Advancing(fd: int)  // has read clifd[iget]
    | Unlocking(fd: int)  // has advanced iget
    | Serving(fd: int)

  /** Where the main thread is in its accept loop. */
  datatype Acceptor =
    | Accepting
    | HasConn(fd: int)    // before pthread_mutex_lock
    | Storing(fd: int)    // holds the mutex
    | Bumping(fd: int)    // has written clifd[iput]
    | Checking            // has advanced iput
    | Signalling          // found that the queue did not run full
    | Releasing
    | Exited              // the queue ran full: exit(1), with the mutex held

  datatype Owner = Free | Main | Thread(t: nat)

  /**
   * `queue`, `accepted`, `taken` and `served` are history: what lies in the ring, and all descriptors that came in,
   * that came out and that a thread began to serve.
   */
  datatype State = State(
    threads: map<nat, Consumer>, main: Acceptor, owner: Owner,
    clifd: seq<int>, iget: nat, iput: nat,
    queue: seq<int>, accepted: seq<int>, taken: seq<int>, served: seq<int>)

  datatype Step =
    | Lock(t: nat) | Test(t: nat) | Spurious(t: nat) | Relock(t: nat) | Take(t: nat) | Advance(t: nat) | Unlock(t: nat)
    | Done(t: nat)
    | Accept(fd: int) | MainLock | Store | Bump | Check | Signal(woken: set<nat>) | MainUnlock

  function Bumped(i: nat): (n: nat) {
    if i + 1 == MAXNCLI then 0 else i + 1
  }

  ghost function BlockedThreads(s: State): (ids: set<nat>) {
    set t | t in s.threads && s.threads[t].Blocked?
  }

  /** The step can happen. A signal unblocks at least one blocked thread, if there is one. */
  ghost predicate Enabled(s: State, step: Step) {
    match step
    case Lock(t) => t in s.threads && s.threads[t].ToLock? && s.owner.Free?
    case Test(t) => t in s.threads && s.threads[t].Testing?
    case Spurious(t) => t in s.threads && s.threads[t].Blocked?
    case Relock(t) => t in s.threads && s.threads[t].Woken? && s.owner.Free?
    case Take(t) => t in s.threads && s.threads[t].Taking? && s.iget < |s.clifd|
    case Advance(t) => t in s.threads && s.threads[t].Advancing? && s.queue != []
    case Unlock(t) => t in s.threads && s.threads[t].Unlocking?
    case Done(t) => t in s.threads && s.threads[t].Serving?
    case Accept(_) => s.main.Accepting?
    case MainLock => s.main.HasConn? && s.owner.Free?
    case Store => s.main.Storing? && s.iput < |s.clifd|
    case Bump => s.main.Bumping?
    case Check => s.main.Checking?
    case Signal(woken) => s.main.Signalling? && woken <= BlockedThreads(s) && (BlockedThreads(s) != {} ==> woken != {})
    case MainUnlock => s.main.Releasing?
  }

  /** The threads of `woken` no longer wait for the condition. */
  ghost function Awake(threads: map<nat, Consumer>, woken: set<nat>): (r: map<nat, Consumer>)
    ensures r.Keys == threads.Keys
    ensures forall t | t in r :: r[t] == if t in woken then Woken else threads[t]
  {
    Tabulate(threads.Keys, t => if t in threads && t !in woken then threads[t] else Woken)
  }

  function Move(s: State, t: nat, c: Consumer): (s': State) {
    s.(threads := s.threads[t := c])
  }

  ghost function Apply(s: State, step: Step): (s': State)
    requires Enabled(s, step)
  {
    match step
    case Lock(t) => Move(s, t, Testing).(owner := Thread(t))
    case Test(t) => if s.iget == s.iput then Move(s, t, Blocked).(owner := Free) else Move(s, t, Taking)
    case Spurious(t) => Move(s, t, Woken)
    case Relock(t) => Move(s, t, Testing).(owner := Thread(t))
    case Take(t) => Move(s, t, Advancing(s.clifd[s.iget]))
    case Advance(t) =>
      var fd := s.threads[t].fd;
      Move(s, t, Unlocking(fd)).(iget := Bumped(s.iget), queue := s.queue[1..], taken := s.taken + [fd])
    case Unlock(t) =>
      var fd := s.threads[t].fd;
      Move(s, t, Serving(fd)).(owner := Free, served := s.served + [fd])
    case Done(t) => Move(s, t, ToLock)
    case Accept(fd) => s.(main := HasConn(fd), accepted := s.accepted + [fd])
    case MainLock => s.(main := Storing(s.main.fd), owner := Main)
    case Store => s.(main := Bumping(s.main.fd), clifd := s.clifd[s.iput := s.main.fd])
    case Bump => s.(main := Checking, iput := Bumped(s.iput), queue := s.queue + [s.main.fd])
    case Check => s.(main := if s.iput == s.iget then Exited else Signalling)
    case Signal(woken) =>
      s.(main := Releasing, threads := Awake(s.threads, woken))
    case MainUnlock => s.(main := Accepting, owner := Free)
  }

  ghost predicate Init(s: State) {
    && (forall t | t in s.threads :: s.threads[t].ToLock?) && s.main.Accepting? && s.owner.Free?
    && |s.clifd| == MAXNCLI && s.iget == s.iput == 0 && s.queue == s.accepted == s.taken == s.served == []
  }

  /** A run: an initial state and enabled steps from then on. */
  ghost predicate IsRun(run: seq<State>, steps: seq<Step>) {
    && |run| == |steps| + 1 && Init(run[0])
    && forall k | 0 <= k < |steps| :: Enabled(run[k], steps[k]) && run[k + 1] == Apply(run[k], steps[k])
  }

  // ----- The mutex

  predicate HoldsMutex(c: Consumer) {
    c.Testing? || c.Taking? || c.Advancing? || c.Unlocking?
  }

  predicate MainHoldsMutex(m: Acceptor) {
    !m.Accepting? && !m.HasConn?
  }

  ghost predicate MutexInv(s: State) {
    && (forall t | t in s.threads :: HoldsMutex(s.threads[t]) <==> s.owner == Thread(t))
    && (MainHoldsMutex(s.main) <==> s.owner == Main)
    && (s.owner.Thread? ==> s.owner.t in s.threads)
  }

  lemma MutexKept(s: State, step: Step)
    requires MutexInv(s) && Enabled(s, step)
    ensures MutexInv(Apply(s, step))
  {
  }

  // ----- The ring

  /** The ring read off the shared variables alone. */
  function Ring(clifd: seq<int>, iget: nat, n: nat): (r: seq<int>)
    requires |clifd| == MAXNCLI && iget < MAXNCLI
  {
    seq(n, k requires 0 <= k < n => clifd[(iget + k) % MAXNCLI])
  }

  function Pending(m: Acceptor): (r: seq<int>) {
    if m.HasConn? || m.Storing? || m.Bumping? then [m.fd] else []
  }

  ghost predicate RingInv(s: State) {
    && |s.clifd| == MAXNCLI && s.iget < MAXNCLI && s.iput < MAXNCLI && |s.queue| <= MAXNCLI
    && s.iput == (s.iget + |s.queue|) % MAXNCLI
    && s.queue == Ring(s.clifd, s.iget, |s.queue|)
    && (|s.queue| == MAXNCLI ==> (s.main.Checking? || s.main.Exited?))
    && (s.main.Checking? ==> s.queue != [])
    && (s.main.Bumping? ==> s.clifd[s.iput] == s.main.fd)
    && (forall t | t in s.threads && (s.threads[t].Taking? || s.threads[t].Advancing?) :: s.queue != [])
    && (forall t | t in s.threads && s.threads[t].Advancing? :: s.threads[t].fd == s.clifd[s.iget])
    && s.accepted == s.taken + s.queue + Pending(s.main)
  }

  lemma RingAfterBump(clifd: seq<int>, iget: nat, n: nat, fd: int)
    requires |clifd| == MAXNCLI && iget < MAXNCLI && n < MAXNCLI && clifd[(iget + n) % MAXNCLI] == fd
    ensures Ring(clifd, iget, n + 1) == Ring(clifd, iget, n) + [fd]
    ensures Bumped((iget + n) % MAXNCLI) == (iget + n + 1) % MAXNCLI
  {
  }

  lemma RingAfterAdvance(clifd: seq<int>, iget: nat, n: nat)
    requires |clifd| == MAXNCLI && iget < MAXNCLI && 0 < n <= MAXNCLI
    ensures Ring(clifd, Bumped(iget), n - 1) == Ring(clifd, iget, n)[1..] && Ring(clifd, iget, n)[0] == clifd[iget]
    ensures (Bumped(iget) + (n - 1)) % MAXNCLI == (iget + n) % MAXNCLI
  {
    var r, r' := Ring(clifd, iget, n), Ring(clifd, Bumped(iget), n - 1);
    forall k | 0 <= k < n - 1 ensures r'[k] == r[k + 1] {
      assert (Bumped(iget) + k) % MAXNCLI == (iget + (k + 1)) % MAXNCLI;
    }
  }

  lemma RingAfterStore(clifd: seq<int>, iget: nat, n: nat, fd: int)
    requires |clifd| == MAXNCLI && iget < MAXNCLI && n < MAXNCLI
    ensures Ring(clifd[(iget + n) % MAXNCLI := fd], iget, n) == Ring(clifd, iget, n)
  {
  }

  lemma RingKeptByMain(s: State, step: Step)
    requires MutexInv(s) && RingInv(s) && Enabled(s, step)
    requires step.Accept? || step.MainLock? || step.Store? || step.Bump? || step.Check? || step.MainUnlock?
    ensures RingInv(Apply(s, step))
  {
    var n := |s.queue|;
    match step
    case Store => RingAfterStore(s.clifd, s.iget, n, s.main.fd);
    case Bump => RingAfterBump(s.clifd, s.iget, n, s.main.fd);
    case _ =>
  }

  lemma RingKeptByAdvance(s: State, t: nat)
    requires MutexInv(s) && RingInv(s) && Enabled(s, Advance(t))
    ensures RingInv(Apply(s, Advance(t)))
  {
    RingAfterAdvance(s.clifd, s.iget, |s.queue|);
    assert s.taken + s.queue == (s.taken + [s.queue[0]]) + s.queue[1..];
  }

  lemma RingKeptByThread(s: State, step: Step)
    requires MutexInv(s) && RingInv(s) && Enabled(s, step)
    requires !(step.Accept? || step.MainLock? || step.Store? || step.Bump? || step.Check? || step.MainUnlock?)
    ensures RingInv(Apply(s, step))
  {
    if step.Advance? {
      RingKeptByAdvance(s, step.t);
    }
  }

  /** As long as the queue has not run full, the two indices meet exactly when it is empty. */
  lemma MeetIsEmpty(s: State)
    requires RingInv(s) && |s.queue| < MAXNCLI
    ensures s.iget == s.iput <==> s.queue == []
  {
  }

  // ----- Wake-ups

  predicate IsTrying(c: Consumer) {
    c.ToLock? || c.Testing? || c.Woken? || c.Taking? || c.Advancing?
  }

  /** The threads that are on their way to take a descriptor. */
  ghost function Trying(s: State): (ids: set<nat>) {
    set t | t in s.threads && IsTrying(s.threads[t])
  }

  /** One descriptor was put in, and the signal for it is still to come, or never will because of the exit. */
  predicate SignalDue(m: Acceptor) {
    m.Checking? || m.Signalling? || m.Exited?
  }

  ghost predicate WakeInv(s: State) {
    BlockedThreads(s) != {} ==> |s.queue| <= |Trying(s)| + if SignalDue(s.main) then 1 else 0
  }

  lemma MoveCounts(s: State, t: nat, c: Consumer)
    requires t in s.threads
    ensures Trying(Move(s, t, c)) == if IsTrying(c) then Trying(s) + {t} else Trying(s) - {t}
    ensures BlockedThreads(Move(s, t, c)) == if c.Blocked? then BlockedThreads(s) + {t} else BlockedThreads(s) - {t}
  {
  }

  lemma DisjointUnionGrows(a: set<nat>, b: set<nat>)
    requires a !! b && b != {}
    ensures |a + b| > |a|
  {
    assert |a + b| == |a| + |b|;
  }

  lemma OneMoreOrLess(a: set<nat>, t: nat)
    ensures |a + {t}| >= |a| && |a - {t}| >= |a| - (if t in a then 1 else 0)
  {
    if t !in a {
      assert a - {t} == a;
    } else {
      assert a + {t} == a;
    }
  }

  /** A step of one thread: it stops trying only by taking a descriptor, or because there is none. */
  lemma WakeKeptByThread(s: State, t: nat, c: Consumer, s': State)
    requires WakeInv(s) && t in s.threads
    requires s'.threads == Move(s, t, c).threads && s'.main == s.main
    requires |s'.queue| == |s.queue| - (if s.threads[t].Advancing? then 1 else 0)
    requires IsTrying(s.threads[t]) && !IsTrying(c) ==> s.threads[t].Advancing? || s.queue == []
    requires c.Blocked? ==> s.queue == []
    ensures WakeInv(s')
  {
    MoveCounts(s, t, c);
    assert Trying(s') == Trying(Move(s, t, c)) && BlockedThreads(s') == BlockedThreads(Move(s, t, c));
    OneMoreOrLess(Trying(s), t);
  }

  lemma SignalMoves(s: State, woken: set<nat>)
    requires Enabled(s, Signal(woken))
    ensures var s' := Apply(s, Signal(woken));
            Trying(s') == Trying(s) + woken && BlockedThreads(s') == BlockedThreads(s) - woken && Trying(s) !! woken
  {
  }

  lemma SignalWakes(s: State, woken: set<nat>)
    requires WakeInv(s) && Enabled(s, Signal(woken))
    ensures WakeInv(Apply(s, Signal(woken)))
  {
    SignalMoves(s, woken);
    if BlockedThreads(s) != {} {
      DisjointUnionGrows(Trying(s), woken);
    }
  }

  lemma WakeKept(s: State, step: Step)
    requires MutexInv(s) && RingInv(s) && WakeInv(s) && Enabled(s, step)
    ensures WakeInv(Apply(s, step))
  {
    var s' := Apply(s, step);
    match step
    case Lock(t) => WakeKeptByThread(s, t, Testing, s');
    case Test(t) =>
      MeetIsEmpty(s);
      WakeKeptByThread(s, t, if s.iget == s.iput then Blocked else Taking, s');
    case Spurious(t) => WakeKeptByThread(s, t, Woken, s');
    case Relock(t) => WakeKeptByThread(s, t, Testing, s');
    case Take(t) => WakeKeptByThread(s, t, Advancing(s.clifd[s.iget]), s');
    case Advance(t) => WakeKeptByThread(s, t, Unlocking(s.threads[t].fd), s');
    case Unlock(t) => WakeKeptByThread(s, t, Serving(s.threads[t].fd), s');
    case Done(t) => WakeKeptByThread(s, t, ToLock, s');
    case Signal(woken) => SignalWakes(s, woken);
    case _ => assert Trying(s') == Trying(s) && BlockedThreads(s') == BlockedThreads(s);
  }

  // ----- What is taken is served

  /** The descriptor, if any, that was taken by the thread that holds the mutex. */
  ghost function InHand(s: State): (r: seq<int>) {
    if s.owner.Thread? && s.owner.t in s.threads && s.threads[s.owner.t].Unlocking?
    then [s.threads[s.owner.t].fd]
    else []
  }

  ghost predicate ServedInv(s: State) {
    s.taken == s.served + InHand(s)
  }

  lemma InHandStays(s: State, step: Step)
    requires MutexInv(s) && Enabled(s, step) && !step.Advance? && !step.Unlock?
    ensures var s' := Apply(s, step); InHand(s') == InHand(s) && s'.taken == s.taken && s'.served == s.served
  {
  }

  lemma ServedKept(s: State, step: Step)
    requires MutexInv(s) && ServedInv(s) && Enabled(s, step)
    ensures ServedInv(Apply(s, step))
  {
    if step.Advance? || step.Unlock? {
      assert s.owner == Thread(step.t);
    } else {
      InHandStays(s, step);
    }
  }

  // ----- Over whole runs

  ghost predicate Inv(s: State) {
    MutexInv(s) && RingInv(s) && WakeInv(s)
  }

  lemma InvKept(s: State, step: Step)
    requires Inv(s) && Enabled(s, step)
    ensures Inv(Apply(s, step))
  {
    MutexKept(s, step);
    if step.Accept? || step.MainLock? || step.Store? || step.Bump? || step.Check? || step.MainUnlock? {
      RingKeptByMain(s, step);
    } else {
      RingKeptByThread(s, step);
    }
    WakeKept(s, step);
  }

  lemma {:induction false} Reachable(run: seq<State>, steps: seq<Step>, k: nat)
    requires IsRun(run, steps) && k < |run|
    ensures Inv(run[k])
    decreases k
  {
    if k > 0 {
      Reachable(run, steps, k - 1);
      InvKept(run[k - 1], steps[k - 1]);
    } else {
      assert Ring(run[0].clifd, 0, 0) == [];
    }
  }

  /**
   * No lost wake-up: in every state of every run, when some thread is blocked, each descriptor in the queue has a
   * thread of its own on the way to take it, but for one whose signal is still to come. So the threads are never
   * all blocked while a descriptor waits.
   */
  lemma NoLostWakeUp(run: seq<State>, steps: seq<Step>, k: nat)
    requires IsRun(run, steps) && k < |run|
    ensures var s := run[k];
            && (BlockedThreads(s) != {} ==> |s.queue| <= |Trying(s)| + if SignalDue(s.main) then 1 else 0)
            && (s.queue != [] && !SignalDue(s.main) && BlockedThreads(s) != {} ==> Trying(s) != {})
  {
    Reachable(run, steps, k);
  }

  lemma {:induction false} AllAreServed(run: seq<State>, steps: seq<Step>, k: nat)
    requires IsRun(run, steps) && k < |run|
    ensures ServedInv(run[k])
    decreases k
  {
    if k > 0 {
      AllAreServed(run, steps, k - 1);
      Reachable(run, steps, k - 1);
      ServedKept(run[k - 1], steps[k - 1]);
    }
  }

  /**
   * In every state of every run until the queue runs full, the descriptors accepted are those being or been served, the
   * one in the hand of the thread that has the mutex, then the ring as read off the shared variables, then the one on
   * its way in: in order, none lost and none taken twice.
   */
  lemma FirstInFirstOut(run: seq<State>, steps: seq<Step>, k: nat)
    requires IsRun(run, steps) && k < |run|
    requires var s := run[k]; !s.main.Exited? && !(s.main.Checking? && s.iput == s.iget)
    ensures var s := run[k];
            && |s.clifd| == MAXNCLI && s.iget < MAXNCLI
            && s.accepted == s.served + InHand(s) + Ring(s.clifd, s.iget, (s.iput - s.iget) % MAXNCLI) + Pending(s.main)
  {
    Reachable(run, steps, k);
    AllAreServed(run, steps, k);
    var s := run[k];
    assert |s.queue| < MAXNCLI;
    assert (s.iput - s.iget) % MAXNCLI == |s.queue|;
  }

  lemma OthersLeaveThread(s: State, step: Step, t: nat)
    requires Enabled(s, step) && t in s.threads && !s.threads[t].Blocked?
    requires !(step.Lock? || step.Test? || step.Spurious? || step.Relock? || step.Take? || step.Advance? || step.Unlock?
               || step.Done?) || step.t != t
    ensures t in Apply(s, step).threads && Apply(s, step).threads[t] == s.threads[t]
  {
  }

  /** From taking a descriptor until it comes back for the mutex a thread is with that descriptor and with no other. */
  ghost predicate IsWithTaken(run: seq<State>, steps: seq<Step>, t: nat, fd: int, j: nat, k: nat, i: nat)
    requires j < k < |run| == |steps| + 1 && t in run[k].threads
  {
    || run[k].threads[t] == Unlocking(fd)
    || (run[k].threads[t] == Serving(fd) && j < i < k && steps[i] == Unlock(t)
        && run[i + 1].served == run[i].served + [fd])
  }

  lemma {:induction false} WithTaken(run: seq<State>, steps: seq<Step>, t: nat, fd: int, j: nat, k: nat)
    returns (i: nat)
    requires IsRun(run, steps) && j < k < |run| && steps[j] == Advance(t)
    requires run[j + 1].taken == run[j].taken + [fd]
    requires forall m | j < m <= k :: t in run[m].threads && !run[m].threads[t].ToLock?
    ensures IsWithTaken(run, steps, t, fd, j, k, i)
    decreases k
  {
    var n := k - 1;
    assert Enabled(run[n], steps[n]) && run[k] == Apply(run[n], steps[n]);
    i := n;
    if n == j {
      assert (run[j].taken + [fd])[|run[j].taken|] == fd;
    } else {
      var before := WithTaken(run, steps, t, fd, j, n);
      if steps[n] != Unlock(t) {
        i := before;
        if steps[n] != Done(t) {
          OthersLeaveThread(run[n], steps[n], t);
        }
      }
    }
  }

  /**
   * In every run the thread that took a descriptor is the one that serves it: when it comes back for the mutex it was
   * serving that very descriptor just before, and a step of its own has put it among those served.
   */
  lemma TakerServes(run: seq<State>, steps: seq<Step>, t: nat, fd: int, j: nat, k: nat) returns (i: nat)
    requires IsRun(run, steps) && j < k < |steps| && steps[j] == Advance(t)
    requires run[j + 1].taken == run[j].taken + [fd]
    requires forall m | j < m <= k :: t in run[m].threads && !run[m].threads[t].ToLock?
    requires t in run[k + 1].threads && run[k + 1].threads[t].ToLock?
    ensures t in run[k].threads && run[k].threads[t] == Serving(fd)
    ensures j < i < k && steps[i] == Unlock(t) && run[i + 1].served == run[i].served + [fd]
  {
    i := WithTaken(run, steps, t, fd, j, k);
    assert Enabled(run[k], steps[k]) && run[k + 1] == Apply(run[k], steps[k]);
  }

  /** The server exits exactly when the accepted descriptor fills the last place of the ring. */
  lemma ExitsWhenFull(run: seq<State>, steps: seq<Step>, k: nat)
    requires IsRun(run, steps) && k < |steps| && steps[k].Check?
    ensures run[k + 1].main.Exited? <==> |run[k].accepted| - |run[k].taken| == MAXNCLI
  {
    Reachable(run, steps, k);
    Reachable(run, steps, k + 1);
  }
}
