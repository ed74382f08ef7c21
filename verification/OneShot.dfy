/**
 * Who may touch a descriptor in `epoll_server_edge_trigger_oneshot.c`: any number of threads wait on one epoll set in
 * which every descriptor is armed for one event at a time.
 */
module OneShot {

  const EPOLLMAXEVENTS: nat := 64

  /** An event that `epoll_wait` returned; `bad` is the first test of the loop: error, hang-up, or not readable. */
  datatype Event = Event(fd: int, bad: bool)

  /** Where a thread is with the first of its events. */
  datatype Phase =
    | Ready               // at the event, or waiting if there is none left
    | Accepted(fd: int)   // has accepted, before EPOLL_CTL_ADD
    | Deleting(fd: int)   // has closed a bad descriptor, before EPOLL_CTL_DEL

  /** `todo` are the events that the thread has not finished, the first one first. */
  datatype ThreadState = ThreadState(todo: seq<Event>, phase: Phase)

  /** What the kernel has open, has in the epoll set, and will report; and the threads. */
  datatype State = State(open: set<int>, registered: set<int>, armed: set<int>, threads: map<nat, ThreadState>)

  datatype Step =
    | Wait(t: nat, events: seq<Event>)
    | CloseBad(t: nat) | Delete(t: nat)
    | Accept(t: nat, connfd: int) | AddConn(t: nat) | AddFails(t: nat) | AcceptAgain(t: nat) | AcceptFails(t: nat)
    | ReadAgain(t: nat) | Close(t: nat)

  predicate AtEvent(s: State, t: nat) {
    t in s.threads && s.threads[t].todo != [] && s.threads[t].phase.Ready?
  }

  ghost predicate Enabled(s: State, step: Step, listenfd: int) {
    match step
    case Wait(t, events) =>
      && t in s.threads && s.threads[t] == ThreadState([], Ready) && |events| <= EPOLLMAXEVENTS
      && (forall i | 0 <= i < |events| :: events[i].fd in s.armed)
      && (forall i, j | 0 <= i < j < |events| :: events[i].fd != events[j].fd)
    case CloseBad(t) => AtEvent(s, t) && s.threads[t].todo[0].bad
    case Delete(t) => t in s.threads && s.threads[t].phase.Deleting?
    case Accept(t, connfd) => AtEvent(s, t) && s.threads[t].todo[0] == Event(listenfd, false) && connfd !in s.open
    case AddConn(t) => t in s.threads && s.threads[t].phase.Accepted? && s.threads[t].phase.fd !in s.registered
    case AddFails(t) => t in s.threads && s.threads[t].phase.Accepted? && s.threads[t].todo != []
    case AcceptAgain(t) => AtEvent(s, t) && s.threads[t].todo[0] == Event(listenfd, false)
    case AcceptFails(t) => AtEvent(s, t) && s.threads[t].todo[0] == Event(listenfd, false)
    case ReadAgain(t) => AtEvent(s, t) && !s.threads[t].todo[0].bad && s.threads[t].todo[0].fd != listenfd
    case Close(t) => AtEvent(s, t) && !s.threads[t].todo[0].bad && s.threads[t].todo[0].fd != listenfd
  }

  /** Closing a descriptor takes it out of the epoll set. */
  function Closed(s: State, fd: int): (s': State) {
    s.(open := s.open - {fd}, registered := s.registered - {fd}, armed := s.armed - {fd})
  }

  /** `EPOLL_CTL_MOD` arms a registered descriptor again, and fails otherwise. */
  function Rearmed(s: State, fd: int): (s': State) {
    if fd in s.registered then s.(armed := s.armed + {fd}) else s
  }

  function With(s: State, t: nat, todo: seq<Event>, phase: Phase): (s': State) {
    s.(threads := s.threads[t := ThreadState(todo, phase)])
  }

  ghost function Apply(s: State, step: Step, listenfd: int): (s': State)
    requires Enabled(s, step, listenfd)
  {
    var todo := s.threads[step.t].todo;
    match step
    case Wait(t, events) => With(s, t, events, Ready).(armed := s.armed - set e | e in events :: e.fd)
    case CloseBad(t) => With(Closed(s, todo[0].fd), t, todo[1..], Deleting(todo[0].fd))
    case Delete(t) =>
      var fd := s.threads[t].phase.fd;
      With(s, t, todo, Ready).(registered := s.registered - {fd}, armed := s.armed - {fd})
    case Accept(t, connfd) => With(s, t, todo, Accepted(connfd)).(open := s.open + {connfd})
    case AddConn(t) =>
      var fd := s.threads[t].phase.fd;
      With(s, t, todo, Ready).(registered := s.registered + {fd}, armed := s.armed + {fd})
    case AddFails(t) => With(s, t, todo[1..], Ready)
    case AcceptAgain(t) => With(Rearmed(s, listenfd), t, todo[1..], Ready)
    case AcceptFails(t) => With(s, t, todo[1..], Ready)
    case ReadAgain(t) => With(Rearmed(s, todo[0].fd), t, todo[1..], Ready)
    case Close(t) => With(Closed(s, todo[0].fd), t, todo[1..], Ready)
  }

  ghost predicate Init(s: State, listenfd: int) {
    && s.open == s.registered == s.armed == {listenfd}
    && forall t | t in s.threads :: s.threads[t] == ThreadState([], Ready)
  }

  ghost predicate IsRun(run: seq<State>, steps: seq<Step>, listenfd: int) {
    && |run| == |steps| + 1 && Init(run[0], listenfd)
    && forall k | 0 <= k < |steps| ::
         Enabled(run[k], steps[k], listenfd) && run[k + 1] == Apply(run[k], steps[k], listenfd)
  }

  // ----- Ownership

  /** The i-th unfinished event of thread `t` is for `fd`. */
  predicate Has(s: State, t: nat, i: nat, fd: int) {
    t in s.threads && i < |s.threads[t].todo| && s.threads[t].todo[i].fd == fd
  }

  /** The unfinished events for a descriptor, over all threads. */
  ghost function Holders(s: State, fd: int): (r: set<(nat, nat)>) {
    set t: nat, i: nat | t in s.threads && i < |s.threads[t].todo| && Has(s, t, i, fd) :: (t, i)
  }

  ghost predicate KernelInv(s: State) {
    s.armed <= s.registered <= s.open
  }

  /** An unfinished event is for an open descriptor that is not armed, and no other one is for the same. */
  ghost predicate EventInv(s: State) {
    && (forall t: nat, i: nat, fd: int | Has(s, t, i, fd) :: fd in s.open && fd !in s.armed)
    && (forall t: nat, i: nat, t': nat, i': nat, fd: int | Has(s, t, i, fd) && Has(s, t', i', fd) :: t == t' && i == i')
  }

  predicate HasAccepted(s: State, t: nat, fd: int) {
    t in s.threads && s.threads[t].phase == Accepted(fd)
  }

  /** A descriptor that was accepted and not added yet is known to one thread only, and has no event. */
  ghost predicate AcceptInv(s: State) {
    && (forall t: nat, fd: int | HasAccepted(s, t, fd) ::
          fd in s.open && fd !in s.registered && s.threads[t].todo != [])
    && (forall t: nat, fd: int, t': nat, i: nat | HasAccepted(s, t, fd) :: !Has(s, t', i, fd))
    && (forall t: nat, t': nat, fd: int | HasAccepted(s, t, fd) && HasAccepted(s, t', fd) :: t == t')
  }

  ghost predicate Inv(s: State) {
    KernelInv(s) && EventInv(s) && AcceptInv(s)
  }

  /** When a thread finishes its first event, the others move up by one place, and none is left for that descriptor. */
  lemma HasAfterFirst(s: State, s': State, t: nat, phase: Phase)
    requires t in s.threads && s.threads[t].todo != [] && EventInv(s)
    requires s'.threads == With(s, t, s.threads[t].todo[1..], phase).threads
    ensures forall u: nat, i: nat, fd: int {:trigger Has(s', u, i, fd)} ::
              Has(s', u, i, fd) <==> Has(s, u, if u == t then i + 1 else i, fd)
    ensures forall u: nat, i: nat :: !Has(s', u, i, s.threads[t].todo[0].fd)
  {
    var fd := s.threads[t].todo[0].fd;
    assert Has(s, t, 0, fd);
    forall u: nat, i: nat, g: int {:trigger Has(s', u, i, g)}
      ensures Has(s', u, i, g) <==> Has(s, u, if u == t then i + 1 else i, g)
    {
      if u == t && i < |s'.threads[t].todo| {
        assert s'.threads[t].todo[i] == s.threads[t].todo[i + 1];
      }
    }
    forall u: nat, i: nat ensures !Has(s', u, i, fd) {
      var j := if u == t then i + 1 else i;
      assert Has(s, u, j, fd) ==> u == t && j == 0;
    }
  }

  /** Finishing the first event of a thread, whatever the kernel then does with its descriptor alone. */
  lemma FinishKeepsInv(s: State, s': State, t: nat, phase: Phase)
    requires Inv(s) && t in s.threads && s.threads[t].todo != [] && !phase.Accepted?
    requires s'.threads == With(s, t, s.threads[t].todo[1..], phase).threads
    requires var fd := s.threads[t].todo[0].fd;
             && KernelInv(s') && s.open - {fd} <= s'.open <= s.open
             && s'.armed <= s.armed + {fd} && s'.registered <= s.registered
    ensures Inv(s')
  {
    var fd := s.threads[t].todo[0].fd;
    HasAfterFirst(s, s', t, phase);
    assert Has(s, t, 0, fd);
    forall u: nat, i: nat, g: int | Has(s', u, i, g) ensures g in s'.open && g !in s'.armed {
      assert Has(s, u, if u == t then i + 1 else i, g);
    }
    forall u: nat, i: nat, u': nat, i': nat, g: int | Has(s', u, i, g) && Has(s', u', i', g)
      ensures u == u' && i == i'
    {
      assert Has(s, u, if u == t then i + 1 else i, g) && Has(s, u', if u' == t then i' + 1 else i', g);
    }
    forall u: nat, g: int | HasAccepted(s', u, g)
      ensures u != t && HasAccepted(s, u, g) && g != fd
    {
      assert HasAccepted(s, u, g);
    }
    forall u: nat, g: int, u': nat, i: nat | HasAccepted(s', u, g) ensures !Has(s', u', i, g) {
      assert !Has(s, u', if u' == t then i + 1 else i, g);
    }
  }

  lemma WaitKeepsInv(s: State, t: nat, events: seq<Event>, listenfd: int)
    requires Inv(s) && Enabled(s, Wait(t, events), listenfd)
    ensures Inv(Apply(s, Wait(t, events), listenfd))
  {
    var s' := Apply(s, Wait(t, events), listenfd);
    forall u: nat, i: nat, fd: int | Has(s', u, i, fd)
      ensures if u == t then i < |events| && events[i].fd == fd && fd in s.armed else Has(s, u, i, fd)
    {
    }
    forall fd | fd in s'.armed ensures forall i | 0 <= i < |events| :: events[i].fd != fd {
      forall i | 0 <= i < |events| ensures events[i].fd != fd {
        assert events[i] in events;
      }
    }
    assert forall i | 0 <= i < |events| :: events[i] in events;
    assert forall u: nat, fd: int | HasAccepted(s', u, fd) :: HasAccepted(s, u, fd) && u != t;
  }

  /** Steps within the handling of one event leave all events as they are. */
  lemma WithinKeepsInv(s: State, step: Step, listenfd: int)
    requires Inv(s) && Enabled(s, step, listenfd)
    requires step.Delete? || step.Accept? || step.AddConn?
    ensures Inv(Apply(s, step, listenfd))
  {
    var s' := Apply(s, step, listenfd);
    var t := step.t;
    assert forall u: nat, i: nat, fd: int :: Has(s', u, i, fd) <==> Has(s, u, i, fd);
    assert forall u: nat, fd: int | u != t :: HasAccepted(s', u, fd) <==> HasAccepted(s, u, fd);
    if s.threads[t].phase.Accepted? {
      assert HasAccepted(s, t, s.threads[t].phase.fd);
    }
  }

  lemma InvKept(s: State, step: Step, listenfd: int)
    requires Inv(s) && Enabled(s, step, listenfd)
    ensures Inv(Apply(s, step, listenfd))
  {
    var s' := Apply(s, step, listenfd);
    match step
    case Wait(t, events) => WaitKeepsInv(s, t, events, listenfd);
    case CloseBad(t) => FinishKeepsInv(s, s', t, Deleting(s.threads[t].todo[0].fd));
    case AddFails(t) => FinishKeepsInv(s, s', t, Ready);
    case AcceptAgain(t) => FinishKeepsInv(s, s', t, Ready);
    case AcceptFails(t) => FinishKeepsInv(s, s', t, Ready);
    case ReadAgain(t) => FinishKeepsInv(s, s', t, Ready);
    case Close(t) => FinishKeepsInv(s, s', t, Ready);
    case _ => WithinKeepsInv(s, step, listenfd);
  }

  lemma {:induction false} Reachable(run: seq<State>, steps: seq<Step>, listenfd: int, k: nat)
    requires IsRun(run, steps, listenfd) && k < |run|
    ensures Inv(run[k])
    decreases k
  {
    if k > 0 {
      Reachable(run, steps, listenfd, k - 1);
      InvKept(run[k - 1], steps[k - 1], listenfd);
    }
  }

  lemma AtMostOneHolder(s: State, fd: int)
    requires EventInv(s)
    ensures |Holders(s, fd)| <= 1 && (fd in s.armed ==> Holders(s, fd) == {})
  {
    var h := Holders(s, fd);
    if h != {} {
      var e :| e in h;
      assert Has(s, e.0, e.1, fd);
      forall e' | e' in h ensures e' == e {
        assert Has(s, e'.0, e'.1, fd);
      }
      assert h == {e};
    }
  }

  /**
   * In every state of every run each descriptor is armed or has one unfinished event in one thread, or neither, but
   * never more: through delivery, re-arming, closing, the reuse of a descriptor, and the deletion after a close.
   */
  lemma OneOwner(run: seq<State>, steps: seq<Step>, listenfd: int, k: nat, fd: int)
    requires IsRun(run, steps, listenfd) && k < |run|
    ensures (if fd in run[k].armed then 1 else 0) + |Holders(run[k], fd)| <= 1
  {
    Reachable(run, steps, listenfd, k);
    AtMostOneHolder(run[k], fd);
  }

  /** So two threads never are at an event for the same descriptor, and none is at one for a closed descriptor. */
  lemma ExclusiveUse(run: seq<State>, steps: seq<Step>, listenfd: int, k: nat, t: nat, u: nat)
    requires IsRun(run, steps, listenfd) && k < |run|
    requires AtEvent(run[k], t) && AtEvent(run[k], u) && t != u
    ensures run[k].threads[t].todo[0].fd != run[k].threads[u].todo[0].fd
    ensures run[k].threads[t].todo[0].fd in run[k].open
  {
    Reachable(run, steps, listenfd, k);
    var s := run[k];
    assert Has(s, t, 0, s.threads[t].todo[0].fd) && Has(s, u, 0, s.threads[u].todo[0].fd);
  }

  // ----- Which descriptors are open

  /** A thread is at an event for `fd` and closes it, because of the event or because receiving has ended. */
  predicate Closes(s: State, step: Step, fd: int) {
    (step.CloseBad? || step.Close?) && AtEvent(s, step.t) && s.threads[step.t].todo[0].fd == fd
  }

  /** `fd` was accepted in step `j`, or is the listener and `j` is -1; and no step since has closed it. */
  ghost predicate OpenSince(run: seq<State>, steps: seq<Step>, listenfd: int, fd: int, j: int, k: nat)
    requires k < |run| == |steps| + 1
  {
    && ((j == -1 && fd == listenfd) || (0 <= j < k && steps[j].Accept? && steps[j].connfd == fd))
    && forall i | j < i < k :: !Closes(run[i], steps[i], fd)
  }

  lemma OpenAfterStep(s: State, step: Step, listenfd: int, fd: int)
    requires Enabled(s, step, listenfd)
    ensures fd in Apply(s, step, listenfd).open
       <==> (step.Accept? && step.connfd == fd) || (fd in s.open && !Closes(s, step, fd))
  {
  }

  lemma {:induction false} OpenedBefore(run: seq<State>, steps: seq<Step>, listenfd: int, fd: int, k: nat)
    returns (j: int)
    requires IsRun(run, steps, listenfd) && k < |run| && fd in run[k].open
    ensures OpenSince(run, steps, listenfd, fd, j, k)
    decreases k
  {
    if k == 0 {
      j := -1;
    } else {
      OpenAfterStep(run[k - 1], steps[k - 1], listenfd, fd);
      if steps[k - 1].Accept? && steps[k - 1].connfd == fd {
        j := k - 1;
      } else {
        j := OpenedBefore(run, steps, listenfd, fd, k - 1);
      }
    }
  }

  lemma {:induction false} StaysOpen(run: seq<State>, steps: seq<Step>, listenfd: int, fd: int, j: int, k: nat)
    requires IsRun(run, steps, listenfd) && k < |run| && OpenSince(run, steps, listenfd, fd, j, k)
    ensures fd in run[k].open
    decreases k
  {
    if k > 0 {
      OpenAfterStep(run[k - 1], steps[k - 1], listenfd, fd);
      if j < k - 1 {
        StaysOpen(run, steps, listenfd, fd, j, k - 1);
      }
    }
  }

  /**
   * In every run a descriptor is open exactly from the step that accepts it, or from the start if it is the listener,
   * until a thread at an event for it closes it.
   */
  lemma OpenIff(run: seq<State>, steps: seq<Step>, listenfd: int, fd: int, k: nat)
    requires IsRun(run, steps, listenfd) && k < |run|
    ensures fd in run[k].open <==> exists j :: OpenSince(run, steps, listenfd, fd, j, k)
  {
    if fd in run[k].open {
      var j := OpenedBefore(run, steps, listenfd, fd, k);
    } else if j :| OpenSince(run, steps, listenfd, fd, j, k) {
      StaysOpen(run, steps, listenfd, fd, j, k);
    }
  }

  // ----- Nobody is forgotten

  ghost predicate Held(s: State, fd: int) {
    exists t: nat, i: nat :: Has(s, t, i, fd)
  }

  ghost predicate Coming(s: State, fd: int) {
    exists t: nat :: HasAccepted(s, t, fd)
  }

  ghost predicate HeldAreRegistered(s: State) {
    forall fd | Held(s, fd) :: fd in s.registered
  }

  /** Every open descriptor will be reported, is being handled, or is on its way into the epoll set. */
  ghost predicate Served(s: State) {
    (forall fd | fd in s.open :: fd in s.armed || Held(s, fd) || Coming(s, fd)) && HeldAreRegistered(s)
  }

  /**
   * The steps that forget nobody: no `accept` or `epoll_ctl` fails, and the deletion after a close does not meet a
   * descriptor that has been registered anew.
   */
  predicate ForgetsNobody(s: State, step: Step) {
    && !step.AddFails? && !step.AcceptFails?
    && (step.Delete? && step.t in s.threads && s.threads[step.t].phase.Deleting? ==>
          s.threads[step.t].phase.fd !in s.registered)
  }

  lemma HeldAfterFirst(s: State, s': State, t: nat, phase: Phase, fd: int)
    requires t in s.threads && s.threads[t].todo != [] && EventInv(s)
    requires s'.threads == With(s, t, s.threads[t].todo[1..], phase).threads
    ensures Held(s', fd) <==> Held(s, fd) && fd != s.threads[t].todo[0].fd
  {
    HasAfterFirst(s, s', t, phase);
    if fd != s.threads[t].todo[0].fd && Held(s, fd) {
      var u: nat, i: nat :| Has(s, u, i, fd);
      assert Has(s', u, if u == t then i - 1 else i, fd);
    }
  }

  /** Finishing an event serves its descriptor when it is closed or armed again, and only then. */
  lemma FinishServes(s: State, s': State, t: nat, phase: Phase)
    requires Inv(s) && Served(s) && t in s.threads && s.threads[t].todo != [] && !phase.Accepted?
    requires s.threads[t].phase.Ready?
    requires s'.threads == With(s, t, s.threads[t].todo[1..], phase).threads
    requires var fd := s.threads[t].todo[0].fd;
             && s'.open in {s.open, s.open - {fd}} && s'.registered - {fd} == s.registered - {fd}
             && s'.armed - {fd} == s.armed - {fd}
    ensures var fd := s.threads[t].todo[0].fd; Served(s') <==> fd !in s'.open || fd in s'.armed
  {
    var fd := s.threads[t].todo[0].fd;
    assert Has(s, t, 0, fd);
    assert forall u: nat, g: int :: HasAccepted(s', u, g) <==> HasAccepted(s, u, g);
    forall g: int ensures (Held(s', g) <==> Held(s, g) && g != fd) && (Coming(s', g) <==> Coming(s, g)) {
      HeldAfterFirst(s, s', t, phase, g);
    }
    assert !Coming(s, fd) && !Held(s', fd);
    forall g: int | Held(s', g) ensures g in s'.registered {
      assert g in s.registered - {fd};
    }
    forall g | g in s'.open && g != fd ensures g in s'.armed || Held(s', g) || Coming(s', g) {
      assert g in s.open && (g in s.armed <==> g in s.armed - {fd});
    }
  }

  /** Whom accepting and adding concern: the descriptor that is on its way. */
  lemma WithinServes(s: State, step: Step, listenfd: int)
    requires Inv(s) && Served(s) && Enabled(s, step, listenfd) && (step.Accept? || step.AddConn?)
    ensures Served(Apply(s, step, listenfd))
  {
    var s' := Apply(s, step, listenfd);
    var t := step.t;
    var fd := if step.Accept? then step.connfd else s.threads[t].phase.fd;
    assert forall u: nat, i: nat, g: int :: Has(s', u, i, g) <==> Has(s, u, i, g);
    assert forall g: int :: Held(s', g) <==> Held(s, g);
    forall g: int | g != fd && Coming(s, g) ensures Coming(s', g) {
      var u: nat :| HasAccepted(s, u, g);
      assert u != t && HasAccepted(s', u, g);
    }
    if step.Accept? {
      assert HasAccepted(s', t, fd);
    }
  }

  /** A failed addition forgets the new connection. */
  lemma FailedAdditionForgets(s: State, t: nat, listenfd: int)
    requires Inv(s) && Enabled(s, AddFails(t), listenfd)
    ensures !Served(Apply(s, AddFails(t), listenfd))
  {
    var s' := Apply(s, AddFails(t), listenfd);
    var fd := s.threads[t].phase.fd;
    assert HasAccepted(s, t, fd);
    HeldAfterFirst(s, s', t, Ready, fd);
    assert !Held(s, fd);
    forall u: nat ensures !HasAccepted(s', u, fd) {
      assert HasAccepted(s', u, fd) ==> u != t && HasAccepted(s, u, fd);
    }
  }

  lemma DeletionServesIff(s: State, t: nat, listenfd: int)
    requires Inv(s) && Served(s) && Enabled(s, Delete(t), listenfd)
    ensures Served(Apply(s, Delete(t), listenfd)) <==> s.threads[t].phase.fd !in s.registered
  {
    var s' := Apply(s, Delete(t), listenfd);
    var fd := s.threads[t].phase.fd;
    assert forall u: nat, i: nat, g: int :: Has(s', u, i, g) <==> Has(s, u, i, g);
    assert forall g: int :: Held(s', g) <==> Held(s, g);
    assert forall u: nat, g: int :: HasAccepted(s', u, g) <==> HasAccepted(s, u, g);
    assert forall g: int :: Coming(s', g) <==> Coming(s, g);
    if fd in s.registered {
      assert fd in s.open && !Coming(s, fd) && fd !in s'.registered;
    }
  }

  lemma WaitServes(s: State, t: nat, events: seq<Event>, listenfd: int)
    requires Inv(s) && Served(s) && Enabled(s, Wait(t, events), listenfd)
    ensures Served(Apply(s, Wait(t, events), listenfd))
  {
    var s' := Apply(s, Wait(t, events), listenfd);
    assert forall u: nat, g: int :: HasAccepted(s', u, g) <==> HasAccepted(s, u, g);
    forall u: nat, i: nat, fd: int | Has(s, u, i, fd) ensures Has(s', u, i, fd) {
    }
    forall fd | fd in s.armed && fd !in s'.armed ensures Held(s', fd) {
      var e :| e in events && e.fd == fd;
      var i :| 0 <= i < |events| && events[i] == e;
      assert Has(s', t, i, fd);
    }
    forall fd | Held(s', fd) ensures fd in s'.registered {
      var u: nat, i: nat :| Has(s', u, i, fd);
      assert if u == t then events[i].fd in s.armed else Has(s, u, i, fd) && Held(s, fd);
    }
    forall fd | fd in s'.open ensures fd in s'.armed || Held(s', fd) || Coming(s', fd) {
      if Held(s, fd) {
        var u: nat, i: nat :| Has(s, u, i, fd);
        assert Has(s', u, i, fd);
      } else if Coming(s, fd) {
        var u: nat :| HasAccepted(s, u, fd);
        assert HasAccepted(s', u, fd);
      }
    }
  }

  /** In a state where nobody is forgotten, a step forgets nobody exactly when it is none of the three bad ones. */
  lemma ServedKeptIff(s: State, step: Step, listenfd: int)
    requires Inv(s) && Served(s) && Enabled(s, step, listenfd)
    ensures Served(Apply(s, step, listenfd)) <==> ForgetsNobody(s, step)
  {
    var s' := Apply(s, step, listenfd);
    match step
    case Wait(t, events) => WaitServes(s, t, events, listenfd);
    case CloseBad(t) => FinishServes(s, s', t, Deleting(s.threads[t].todo[0].fd));
    case AddFails(t) => FailedAdditionForgets(s, t, listenfd);
    case Delete(t) => DeletionServesIff(s, t, listenfd);
    case Accept(t, connfd) => WithinServes(s, step, listenfd);
    case AddConn(t) => WithinServes(s, step, listenfd);
    case _ =>
      assert Has(s, step.t, 0, s.threads[step.t].todo[0].fd);
      FinishServes(s, s', step.t, Ready);
  }

  /** Up to any point of a run nobody is forgotten exactly when no step so far has forgotten anybody. */
  lemma {:induction false} ServedIff(run: seq<State>, steps: seq<Step>, listenfd: int, n: nat)
    requires IsRun(run, steps, listenfd) && n <= |steps|
    ensures (forall k | 0 <= k <= n :: Served(run[k])) <==> (forall k | 0 <= k < n :: ForgetsNobody(run[k], steps[k]))
  {
    if n == 0 {
      assert Served(run[0]);
    } else {
      ServedIff(run, steps, listenfd, n - 1);
      Reachable(run, steps, listenfd, n - 1);
      if Served(run[n - 1]) {
        ServedKeptIff(run[n - 1], steps[n - 1], listenfd);
      }
      assert (forall k | 0 <= k <= n :: Served(run[k])) ==> Served(run[n]) && Served(run[n - 1]);
    }
  }

  ghost function Accepters(s: State, fd: int): (ids: set<nat>) {
    set t | t in s.threads && HasAccepted(s, t, fd)
  }

  lemma ExactlyOne(s: State, fd: int)
    requires Inv(s) && Served(s) && fd in s.open
    ensures (if fd in s.armed then 1 else 0) + |Holders(s, fd)| + |Accepters(s, fd)| == 1
  {
    AtMostOneHolder(s, fd);
    if Held(s, fd) {
      var t: nat, i: nat :| Has(s, t, i, fd);
      assert (t, i) in Holders(s, fd);
      assert Accepters(s, fd) == {};
    } else {
      assert Holders(s, fd) == {};
      if Coming(s, fd) {
        var t: nat :| HasAccepted(s, t, fd);
        assert Accepters(s, fd) == {t};
      } else {
        assert Accepters(s, fd) == {};
      }
    }
  }

  /**
   * As long as no step forgets anybody, every open descriptor has exactly one owner: the epoll set, one event in one
   * thread, or the thread that is about to add it.
   */
  lemma ExactlyOneOwner(run: seq<State>, steps: seq<Step>, listenfd: int, k: nat, fd: int)
    requires IsRun(run, steps, listenfd) && k <= |steps| && fd in run[k].open
    requires forall j | 0 <= j < k :: ForgetsNobody(run[j], steps[j])
    ensures (if fd in run[k].armed then 1 else 0) + |Holders(run[k], fd)| + |Accepters(run[k], fd)| == 1
  {
    ServedIff(run, steps, listenfd, k);
    Reachable(run, steps, listenfd, k);
    assert Served(run[k]);
    ExactlyOne(run[k], fd);
  }

  // ----- How a late deletion forgets a client

  /** Wherever a thread is about to delete what it has closed, another one at the listener can come in between. */
  lemma LateDeleteStrands(s: State, t: nat, u: nat, listenfd: int)
    requires Inv(s) && t in s.threads && s.threads[t].phase.Deleting? && s.threads[t].phase.fd !in s.open
    requires u != t && AtEvent(s, u) && s.threads[u].todo[0] == Event(listenfd, false)
    ensures var fd := s.threads[t].phase.fd;
            && Enabled(s, Accept(u, fd), listenfd)
            && var s1 := Apply(s, Accept(u, fd), listenfd);
            && Enabled(s1, AddConn(u), listenfd)
            && var s2 := Apply(s1, AddConn(u), listenfd);
            && Enabled(s2, Delete(t), listenfd)
            && var s3 := Apply(s2, Delete(t), listenfd);
            && fd in s3.open && fd !in s3.registered && fd !in s3.armed
            && forall v: nat, i: nat :: !Has(s3, v, i, fd)
  {
    var fd := s.threads[t].phase.fd;
    forall v: nat, i: nat ensures !Has(s, v, i, fd) {
      assert Has(s, v, i, fd) ==> fd in s.open;
    }
    var s3 := Apply(Apply(Apply(s, Accept(u, fd), listenfd), AddConn(u), listenfd), Delete(t), listenfd);
    forall v: nat, i: nat ensures !Has(s3, v, i, fd) {
      assert !Has(s, v, i, fd);
    }
  }

  lemma Continued(run: seq<State>, steps: seq<Step>, step: Step, listenfd: int, s: State)
    returns (run': seq<State>, steps': seq<Step>)
    requires IsRun(run, steps, listenfd) && Enabled(run[|run| - 1], step, listenfd)
    requires s == Apply(run[|run| - 1], step, listenfd)
    ensures IsRun(run', steps', listenfd) && run'[0] == run[0] && run'[|run'| - 1] == s && steps' == steps + [step]
  {
    run', steps' := run + [s], steps + [step];
  }

  const IDLE := ThreadState([], Ready)

  /** The state in which both threads are at the step given, with `open`, `registered` and `armed` as they are then. */
  function Both(open: set<int>, registered: set<int>, armed: set<int>, t: ThreadState, u: ThreadState): (s': State) {
    State(open, registered, armed, map[0 := t, 1 := u])
  }

  /** One thread accepts and adds a client, and arms the listener again. */
  lemma ClientIsAdded(l: int, c: int) returns (run: seq<State>, steps: seq<Step>)
    requires l != c
    ensures IsRun(run, steps, l) && |steps| == 4 && run[0] == Both({l}, {l}, {l}, IDLE, IDLE)
    ensures forall k | 0 <= k < 4 :: !steps[k].AddFails? && !steps[k].AcceptFails?
    ensures run[4] == Both({l, c}, {l, c}, {l, c}, IDLE, IDLE)
  {
    var client := Event(l, false);
    assert [client][1..] == [];
    run, steps := [Both({l}, {l}, {l}, IDLE, IDLE)], [];
    run, steps := Continued(run, steps, Wait(0, [client]), l, Both({l}, {l}, {}, ThreadState([client], Ready), IDLE));
    run, steps := Continued(run, steps, Accept(0, c), l,
                            Both({l, c}, {l}, {}, ThreadState([client], Accepted(c)), IDLE));
    run, steps := Continued(run, steps, AddConn(0), l, Both({l, c}, {l, c}, {c}, ThreadState([client], Ready), IDLE));
    run, steps := Continued(run, steps, AcceptAgain(0), l, Both({l, c}, {l, c}, {l, c}, IDLE, IDLE));
  }

  /** A thread is told that the connection is bad and closes it; before it deletes it the other is told of a client. */
  lemma BadIsClosed(l: int, c: int) returns (run: seq<State>, steps: seq<Step>)
    requires l != c
    ensures IsRun(run, steps, l) && |steps| == 7 && run[0] == Both({l}, {l}, {l}, IDLE, IDLE)
    ensures forall k | 0 <= k < 7 :: !steps[k].AddFails? && !steps[k].AcceptFails?
    ensures run[7] == Both({l}, {l}, {}, ThreadState([], Deleting(c)), ThreadState([Event(l, false)], Ready))
  {
    var bad, client := Event(c, true), Event(l, false);
    assert [bad][1..] == [] && {l, c} - {c} == {l};
    run, steps := ClientIsAdded(l, c);
    run, steps := Continued(run, steps, Wait(0, [bad]), l, Both({l, c}, {l, c}, {l}, ThreadState([bad], Ready), IDLE));
    run, steps := Continued(run, steps, CloseBad(0), l, Both({l}, {l}, {l}, ThreadState([], Deleting(c)), IDLE));
    run, steps := Continued(run, steps, Wait(1, [client]), l,
                            Both({l}, {l}, {}, ThreadState([], Deleting(c)), ThreadState([client], Ready)));
  }

  /**
   * One thread is told of a bad connection and closes it; before it deletes it, another thread accepts a client with
   * the same number and adds it. The client is then open, but neither registered nor held.
   */
  lemma LateDeletionForgets(l: int, c: int) returns (run: seq<State>, steps: seq<Step>)
    requires l != c
    ensures IsRun(run, steps, l) && |steps| == 10 && run[0] == Both({l}, {l}, {l}, IDLE, IDLE)
    ensures forall k | 0 <= k < 9 :: !steps[k].AddFails? && !steps[k].AcceptFails?
    ensures steps[9] == Delete(0)
    ensures c in run[10].open && c !in run[10].registered && !Held(run[10], c) && !Coming(run[10], c)
  {
    var client, late := Event(l, false), ThreadState([], Deleting(c));
    run, steps := BadIsClosed(l, c);
    run, steps := Continued(run, steps, Accept(1, c), l,
                            Both({l, c}, {l}, {}, late, ThreadState([client], Accepted(c))));
    run, steps := Continued(run, steps, AddConn(1), l, Both({l, c}, {l, c}, {c}, late, ThreadState([client], Ready)));
    assert {l, c} - {c} == {l};
    run, steps := Continued(run, steps, Delete(0), l, Both({l, c}, {l}, {}, IDLE, ThreadState([client], Ready)));
  }
}
