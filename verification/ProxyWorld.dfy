/** What a child process of springsnail does, as a function of the events it meets. */
module ProxyWorld {
  import opened ProxyConn
  import opened ProxyPool
  import opened ProxyServer
  import opened Sockets

  /** A new client; or a readable or writable descriptor. */
  datatype Event =
    | Client(connfd: int)
    | Ready(fd: int, op: OpType, recvs: seq<RecvAnswer>, sends: seq<SendAnswer>)

  /** What `epoll_wait` comes to: it times out, or it returns events. */
  datatype Batch = Quiet(wishes: map<int, int>) | Events(events: seq<Event>)

  /** The pool, and the bytes of every connection object. */
  datatype World = World(pool: Pool, links: map<Conn, Link>)

  ghost predicate LinksInv(made: map<Conn, Entry>, links: map<Conn, Link>) {
    && links.Keys == made.Keys && (forall c | c in links :: LinkInv(links[c]))
    && (forall c | c in links && made[c].place != Busy :: links[c] == NEW_LINK)
  }

  ghost predicate WorldInv(w: World) {
    LaxInv(w.pool) && LinksInv(w.pool.made, w.links)
  }

  // ----- Steps

  /** The event of an end of `c`. */
  ghost function AfterTransfer(w: World, c: Conn, isClt: bool, op: OpType, recvs: seq<RecvAnswer>,
                               sends: seq<SendAnswer>): (w': World)
    requires WorldInv(w) && IsAt(w.pool, c, Busy)
  {
    var l := w.links[c];
    var code := Code(l, isClt, op, recvs, sends);
    if Frees(l, isClt, op, code) then World(AfterFree(w.pool, c), w.links[c := NEW_LINK])
    else World(w.pool.(epoll := RearmedFor(w.pool, c, isClt, op, code)),
               w.links[c := NextLink(l, isClt, op, recvs, sends)])
  }

  /** `process` */
  ghost function AfterReady(w: World, fd: int, op: OpType, recvs: seq<RecvAnswer>, sends: seq<SendAnswer>): (w': World)
    requires WorldInv(w)
  {
    if Found(w.pool, fd) then
      var c := UserOf(w.pool, fd);
      assert Uses(w.pool, c, fd);
      AfterTransfer(w, c, fd == w.pool.made[c].clt, op, recvs, sends)
    else w.(pool := AfterLookUp(w.pool, fd))
  }

  /** The kernel accepts with a descriptor that is not open; without an idle connection it is closed again. */
  ghost predicate Binds(p: Pool, connfd: int) {
    connfd >= 0 && connfd !in p.open && NonEmpty(p.conns.Keys)
  }

  ghost function AfterClient(w: World, connfd: int): (w': World)
    requires WorldInv(w)
  {
    if Binds(w.pool, connfd) then w.(pool := AfterPick(w.pool, connfd)) else w
  }

  /** One event of a batch; `watched` are the descriptors that the kernel watched when it returned the batch. */
  ghost function AfterEvent(w: World, e: Event, watched: set<int>): (w': World)
    requires WorldInv(w)
  {
    match e
    case Client(connfd) => AfterClient(w, connfd)
    case Ready(fd, op, recvs, sends) => if fd in watched then AfterReady(w, fd, op, recvs, sends) else w
  }

  lemma NextLinkInv(l: Link, isClt: bool, op: OpType, recvs: seq<RecvAnswer>, sends: seq<SendAnswer>)
    requires LinkInv(l)
    ensures LinkInv(NextLink(l, isClt, op, recvs, sends))
  {
    var moved := Moved(l, isClt, op, recvs, sends);
    assert LinkInv(moved);
  }

  lemma LinksAfter(w: World, c: Conn, l: Link, e: Entry)
    requires WorldInv(w) && IsAt(w.pool, c, Busy) && LinkInv(l) && (e.place != Busy ==> l == NEW_LINK)
    ensures LinksInv(w.pool.made[c := e], w.links[c := l])
  {
  }

  lemma FreeingKeepsInv(w: World, c: Conn)
    requires WorldInv(w) && IsAt(w.pool, c, Busy)
    ensures var w' := World(AfterFree(w.pool, c), w.links[c := NEW_LINK]);
            WorldInv(w') && w'.pool.made.Keys == w.pool.made.Keys && (PoolInv(w.pool) ==> PoolInv(w'.pool))
  {
    FreeKeepsInv(w.pool, c);
    LinksAfter(w, c, NEW_LINK, Entry(Freed, -1, w.pool.made[c].srv));
  }

  lemma RearmingKeepsInv(w: World, c: Conn, isClt: bool, op: OpType, code: RetCode, l: Link)
    requires WorldInv(w) && IsAt(w.pool, c, Busy) && LinkInv(l)
    ensures var w' := World(w.pool.(epoll := RearmedFor(w.pool, c, isClt, op, code)), w.links[c := l]);
            WorldInv(w') && (PoolInv(w.pool) ==> PoolInv(w'.pool))
  {
    RearmedKeepsInv(w.pool, c, isClt, op, code);
    LinksAfter(w, c, l, w.pool.made[c]);
    assert w.pool.made[c := w.pool.made[c]] == w.pool.made;
  }

  lemma TransferKeepsInv(w: World, c: Conn, isClt: bool, op: OpType, recvs: seq<RecvAnswer>, sends: seq<SendAnswer>)
    requires WorldInv(w) && IsAt(w.pool, c, Busy)
    ensures var w' := AfterTransfer(w, c, isClt, op, recvs, sends);
            WorldInv(w') && w'.pool.made.Keys == w.pool.made.Keys && (PoolInv(w.pool) ==> PoolInv(w'.pool))
  {
    var l := w.links[c];
    FreeingKeepsInv(w, c);
    NextLinkInv(l, isClt, op, recvs, sends);
    RearmingKeepsInv(w, c, isClt, op, Code(l, isClt, op, recvs, sends), NextLink(l, isClt, op, recvs, sends));
  }

  lemma ReadyKeepsInv(w: World, fd: int, op: OpType, recvs: seq<RecvAnswer>, sends: seq<SendAnswer>)
    requires WorldInv(w)
    ensures var w' := AfterReady(w, fd, op, recvs, sends);
            && WorldInv(w') && w'.pool.made.Keys == w.pool.made.Keys
            && (PoolInv(w.pool) ==> (PoolInv(w'.pool) <==> fd in w.pool.used))
  {
    if Found(w.pool, fd) {
      var c := UserOf(w.pool, fd);
      assert Uses(w.pool, c, fd);
      TransferKeepsInv(w, c, fd == w.pool.made[c].clt, op, recvs, sends);
    } else {
      LookUpKeepsLax(w.pool, fd);
      if PoolInv(w.pool) {
        LookUpKeepsInvIff(w.pool, fd);
      }
    }
  }

  lemma ClientKeepsInv(w: World, connfd: int)
    requires WorldInv(w)
    ensures var w' := AfterClient(w, connfd);
            WorldInv(w') && w'.pool.made.Keys == w.pool.made.Keys && (PoolInv(w.pool) ==> PoolInv(w'.pool))
  {
    if Binds(w.pool, connfd) {
      PickKeepsInv(w.pool, connfd);
      PickMoves(w.pool, connfd);
    }
  }

  /** An event that the kernel has reported, but whose connection was freed since. */
  predicate IsStale(e: Event, watched: set<int>, inUse: set<int>) {
    e.Ready? && e.fd in watched && e.fd !in inUse
  }

  /** Every event keeps every object in one place; and it keeps the pool as it is meant to be unless it is stale. */
  lemma EventKeepsInv(w: World, e: Event, watched: set<int>)
    requires WorldInv(w)
    ensures var w' := AfterEvent(w, e, watched);
            && WorldInv(w') && w'.pool.made.Keys == w.pool.made.Keys
            && (PoolInv(w.pool) ==> (PoolInv(w'.pool) <==> !IsStale(e, watched, w.pool.used.Keys)))
  {
    match e
    case Client(connfd) => ClientKeepsInv(w, connfd);
    case Ready(fd, op, recvs, sends) => ReadyKeepsInv(w, fd, op, recvs, sends);
  }

  // ----- Batches and runs

  ghost function AfterEvents(w: World, events: seq<Event>, watched: set<int>): (w': World)
    requires WorldInv(w)
    ensures WorldInv(w') && w'.pool.made.Keys == w.pool.made.Keys
    decreases |events|
  {
    if events == [] then w
    else
      EventKeepsInv(w, events[0], watched);
      AfterEvents(AfterEvent(w, events[0], watched), events[1..], watched)
  }

  lemma QuietKeepsInv(w: World, wishes: map<int, int>)
    requires WorldInv(w)
    ensures var p := AfterRecycle(w.pool, wishes);
            WorldInv(w.(pool := p)) && p.made.Keys == w.pool.made.Keys && (PoolInv(w.pool) ==> PoolInv(p))
  {
    RecycleKeepsInv(w.pool, wishes);
    var q := AfterRecycle(w.pool, wishes);
    forall c | c in w.links && q.made[c].place != Busy ensures w.links[c] == NEW_LINK {
      assert IsAt(w.pool, c, Freed) || !IsAt(w.pool, c, Freed);
    }
  }

  ghost function AfterBatch(w: World, b: Batch): (w': World)
    requires WorldInv(w)
    ensures WorldInv(w') && w'.pool.made.Keys == w.pool.made.Keys
  {
    match b
    case Events(events) => AfterEvents(w, events, w.pool.epoll.Keys)
    case Quiet(wishes) =>
      QuietKeepsInv(w, wishes);
      w.(pool := AfterRecycle(w.pool, wishes))
  }

  ghost function AfterRun(w: World, batches: seq<Batch>): (w': World)
    requires WorldInv(w)
    ensures WorldInv(w') && w'.pool.made.Keys == w.pool.made.Keys
    decreases |batches|
  {
    if batches == [] then w else AfterRun(AfterBatch(w, batches[0]), batches[1..])
  }

  // ----- When a connection is freed

  /** A run, event by event; `watched` are the descriptors that the kernel watched when it returned the batch. */
  datatype Step = Handle(e: Event, watched: set<int>) | TimeOut(wishes: map<int, int>)

  ghost function AfterStep(w: World, step: Step): (w': World)
    requires WorldInv(w)
    ensures WorldInv(w') && w'.pool.made.Keys == w.pool.made.Keys
  {
    match step
    case Handle(e, watched) =>
      EventKeepsInv(w, e, watched);
      AfterEvent(w, e, watched)
    case TimeOut(wishes) => AfterBatch(w, Quiet(wishes))
  }

  /** Step `k` leads from each world to the next. */
  ghost predicate Follows(ws: seq<World>, steps: seq<Step>, k: nat)
    requires k < |steps| == |ws| - 1
  {
    WorldInv(ws[k]) && ws[k + 1] == AfterStep(ws[k], steps[k])
  }

  /** The worlds of a run, before each of its steps and at the end. */
  ghost predicate IsTrace(ws: seq<World>, steps: seq<Step>) {
    |ws| == |steps| + 1 && WorldInv(ws[0]) && forall k | 0 <= k < |steps| :: Follows(ws, steps, k)
  }

  /** `c` is found under `fd` by the event of this step. */
  ghost predicate IsEventOf(w: World, step: Step, c: Conn, fd: int) {
    && step.Handle? && step.e.Ready? && step.e.fd == fd && fd in step.watched
    && Found(w.pool, fd) && UserOf(w.pool, fd) == c
  }

  /** The server of `c` meets a failure: its `recv` or `send` ends before the buffer is full or empty. */
  ghost predicate ServerFails(w: World, step: Step, c: Conn) {
    && IsAt(w.pool, c, Busy) && c in w.links && IsEventOf(w, step, c, w.pool.made[c].srv)
    && MeetsFailure(w.links[c], false, step.e.op, step.e.recvs, step.e.sends)
  }

  /** An event of the client of `c` whose own `recv` or `send` meets a failure, or behind which the server is `gone`. */
  ghost predicate ClientCloses(w: World, step: Step, c: Conn, gone: bool) {
    && IsAt(w.pool, c, Busy) && c in w.links && IsEventOf(w, step, c, w.pool.made[c].clt) && !step.e.op.ERROR?
    && (gone || MeetsFailure(w.links[c], true, step.e.op, step.e.recvs, step.e.sends))
  }

  lemma TransferOfOther(w: World, c: Conn, d: Conn, isClt: bool, op: OpType, recvs: seq<RecvAnswer>,
                        sends: seq<SendAnswer>)
    requires WorldInv(w) && IsAt(w.pool, d, Busy) && c in w.links && c != d
    ensures var w' := AfterTransfer(w, d, isClt, op, recvs, sends);
            c in w'.links && w'.links[c] == w.links[c] && w'.pool.made[c] == w.pool.made[c]
  {
  }

  lemma TransferOf(w: World, c: Conn, isClt: bool, op: OpType, recvs: seq<RecvAnswer>, sends: seq<SendAnswer>)
    requires WorldInv(w) && IsAt(w.pool, c, Busy)
    ensures var l, w' := w.links[c], AfterTransfer(w, c, isClt, op, recvs, sends);
            var closes := isClt && !op.ERROR? && (MeetsFailure(l, true, op, recvs, sends) || l.srvClosed);
            && c in w'.links && c in w'.pool.made
            && (closes ==> w'.pool.made[c].place == Freed)
            && (!closes ==>
                  && w'.pool.made[c] == w.pool.made[c]
                  && (w'.links[c].srvClosed <==> l.srvClosed || (!isClt && MeetsFailure(l, false, op, recvs, sends))))
  {
    FailsIff(w.links[c], isClt, op, recvs, sends);
  }

  lemma ReadyOfBusy(w: World, step: Step, c: Conn)
    requires WorldInv(w) && IsAt(w.pool, c, Busy) && step.Handle? && step.e.Ready? && step.e.fd in step.watched
    ensures var w' := AfterReady(w, step.e.fd, step.e.op, step.e.recvs, step.e.sends);
            && c in w'.links && c in w'.pool.made
            && (ClientCloses(w, step, c, w.links[c].srvClosed) ==> w'.pool.made[c].place == Freed)
            && (!ClientCloses(w, step, c, w.links[c].srvClosed) ==>
                  && w'.pool.made[c] == w.pool.made[c]
                  && (w'.links[c].srvClosed <==> w.links[c].srvClosed || ServerFails(w, step, c)))
  {
    var e := step.e;
    if Found(w.pool, e.fd) {
      var d := UserOf(w.pool, e.fd);
      assert Uses(w.pool, d, e.fd);
      if c == d {
        TransferOf(w, c, e.fd == w.pool.made[c].clt, e.op, e.recvs, e.sends);
      } else {
        TransferOfOther(w, c, d, e.fd == w.pool.made[d].clt, e.op, e.recvs, e.sends);
      }
    }
  }

  lemma RecyclingLeavesBusy(p: Pool, wishes: map<int, int>, c: Conn)
    requires LaxInv(p) && IsAt(p, c, Busy)
    ensures c in AfterRecycle(p, wishes).made && AfterRecycle(p, wishes).made[c] == p.made[c]
  {
    RecycleKeepsInv(p, wishes);
  }

  lemma PickLeavesBusy(p: Pool, connfd: int, c: Conn)
    requires LaxInv(p) && IsAt(p, c, Busy) && Binds(p, connfd)
    ensures c in AfterPick(p, connfd).made && AfterPick(p, connfd).made[c] == p.made[c]
  {
    PickMoves(p, connfd);
  }

  lemma OthersKeepBusy(w: World, step: Step, c: Conn)
    requires WorldInv(w) && IsAt(w.pool, c, Busy)
    requires step.TimeOut? || step.e.Client? || step.e.fd !in step.watched
    ensures var w' := AfterStep(w, step); w'.links == w.links && w'.pool.made[c] == w.pool.made[c]
  {
    if step.TimeOut? {
      RecyclingLeavesBusy(w.pool, step.wishes, c);
    } else if step.e.Client? && Binds(w.pool, step.e.connfd) {
      PickLeavesBusy(w.pool, step.e.connfd, c);
    }
  }

  /** What one step does to a busy connection. */
  lemma StepOfBusy(w: World, step: Step, c: Conn)
    requires WorldInv(w) && IsAt(w.pool, c, Busy)
    ensures var w' := AfterStep(w, step);
            && c in w'.links && c in w'.pool.made
            && (ClientCloses(w, step, c, w.links[c].srvClosed) ==> w'.pool.made[c].place == Freed)
            && (!ClientCloses(w, step, c, w.links[c].srvClosed) ==>
                  && w'.pool.made[c] == w.pool.made[c]
                  && (w'.links[c].srvClosed <==> w.links[c].srvClosed || ServerFails(w, step, c)))
  {
    if step.Handle? && step.e.Ready? && step.e.fd in step.watched {
      ReadyOfBusy(w, step, c);
    } else {
      OthersKeepBusy(w, step, c);
    }
  }

  /** A connection is picked as new. */
  lemma StepOfIdle(w: World, step: Step, c: Conn)
    requires WorldInv(w) && IsAt(w.pool, c, Idle)
    ensures var w' := AfterStep(w, step); c in w'.links && (IsAt(w'.pool, c, Busy) ==> !w'.links[c].srvClosed)
  {
    match step
    case TimeOut(wishes) => RecycleKeepsInv(w.pool, wishes);
    case Handle(Client(connfd), watched) =>
    case Handle(Ready(fd, op, recvs, sends), watched) =>
      if fd in watched && Found(w.pool, fd) {
        var d := UserOf(w.pool, fd);
        assert Uses(w.pool, d, fd);
        TransferOfOther(w, c, d, fd == w.pool.made[d].clt, op, recvs, sends);
      }
  }

  lemma FreedNumberIsNew(p: Pool, c: Conn)
    requires LaxInv(p) && IsAt(p, c, Busy)
    ensures Insert(p.freed, p.made[c].srv, c) == p.freed[p.made[c].srv := c]
  {
    assert p.made[c].srv !in p.freed;
  }

  /** `c` was idle before step `i`, and from then on until step `k` it is the connection of one client. */
  ghost predicate ServesSince(ws: seq<World>, c: Conn, i: nat, k: nat) {
    i < k < |ws| && IsAt(ws[i].pool, c, Idle) && forall m | i < m <= k :: IsAt(ws[m].pool, c, Busy)
  }

  /** Since the pick an event of the server of `c` has met a failure. */
  ghost predicate ServerFailed(ws: seq<World>, steps: seq<Step>, c: Conn, i: nat, k: nat)
    requires k <= |steps| == |ws| - 1
  {
    exists m | i < m < k :: ServerFails(ws[m], steps[m], c)
  }

  lemma ServerFailedOneMore(ws: seq<World>, steps: seq<Step>, c: Conn, i: nat, n: nat)
    requires i < n < |steps| == |ws| - 1
    ensures ServerFailed(ws, steps, c, i, n + 1)
       <==> ServerFailed(ws, steps, c, i, n) || ServerFails(ws[n], steps[n], c)
  {
    if ServerFailed(ws, steps, c, i, n) {
      var m :| i < m < n && ServerFails(ws[m], steps[m], c);
      assert ServerFailed(ws, steps, c, i, n + 1);
    }
  }

  lemma IdleThenBusy(ws: seq<World>, steps: seq<Step>, n: nat, c: Conn)
    requires IsTrace(ws, steps) && n < |steps| && IsAt(ws[n].pool, c, Idle) && IsAt(ws[n + 1].pool, c, Busy)
    ensures c in ws[n + 1].links && !ws[n + 1].links[c].srvClosed
  {
    assert Follows(ws, steps, n);
    StepOfIdle(ws[n], steps[n], c);
  }

  lemma BusyThenBusy(ws: seq<World>, steps: seq<Step>, n: nat, c: Conn)
    requires IsTrace(ws, steps) && n < |steps| && IsAt(ws[n].pool, c, Busy) && IsAt(ws[n + 1].pool, c, Busy)
    ensures c in ws[n].links && c in ws[n + 1].links
    ensures ws[n + 1].links[c].srvClosed <==> ws[n].links[c].srvClosed || ServerFails(ws[n], steps[n], c)
  {
    assert Follows(ws, steps, n);
    StepOfBusy(ws[n], steps[n], c);
  }

  /** What is remembered of the server is whether it has failed since the pick. */
  lemma {:induction false} RememberedIff(ws: seq<World>, steps: seq<Step>, c: Conn, i: nat, k: nat)
    requires IsTrace(ws, steps) && ServesSince(ws, c, i, k)
    ensures c in ws[k].links && (ws[k].links[c].srvClosed <==> ServerFailed(ws, steps, c, i, k))
    decreases k
  {
    var n := k - 1;
    if n == i {
      IdleThenBusy(ws, steps, n, c);
    } else {
      RememberedIff(ws, steps, c, i, n);
      BusyThenBusy(ws, steps, n, c);
      ServerFailedOneMore(ws, steps, c, i, n);
    }
  }

  /**
   * In every run a connection that was picked is freed exactly by an event of its client's descriptor, a READ or a
   * WRITE, whose own `recv` or `send` meets an error or the end before the buffer is full or empty, or that comes when
   * an earlier event of the server has met one since the pick. Until then it stays the client's.
   */
  lemma FreedExactlyWhen(ws: seq<World>, steps: seq<Step>, c: Conn, i: nat, k: nat)
    requires IsTrace(ws, steps) && ServesSince(ws, c, i, k) && k < |steps|
    ensures IsAt(ws[k + 1].pool, c, Freed) <==> ClientCloses(ws[k], steps[k], c, ServerFailed(ws, steps, c, i, k))
    ensures IsAt(ws[k + 1].pool, c, Freed) || (c in ws[k + 1].pool.made && ws[k + 1].pool.made[c] == ws[k].pool.made[c])
  {
    assert Follows(ws, steps, k);
    RememberedIff(ws, steps, c, i, k);
    StepOfBusy(ws[k], steps[k], c);
  }

  /**
   * Freeing closes the descriptors of both ends, stops watching them and forgets them; no others. The object is kept
   * with nothing of its client, to be connected again.
   */
  lemma FreeingReleases(w: World, step: Step, c: Conn)
    requires WorldInv(w) && IsAt(w.pool, c, Busy) && IsAt(AfterStep(w, step).pool, c, Freed)
    ensures var p, w' := w.pool, AfterStep(w, step);
            var q, fds := w'.pool, {p.made[c].clt, p.made[c].srv};
            && q.open == p.open - fds && q.epoll == p.epoll - fds && q.used == p.used - fds && q.conns == p.conns
            && q.freed == p.freed[p.made[c].srv := c] && c in w'.links && w'.links[c] == NEW_LINK
  {
    StepOfBusy(w, step, c);
    FailsIff(w.links[c], true, step.e.op, step.e.recvs, step.e.sends);
    FreedNumberIsNew(w.pool, c);
  }

  lemma KeptIsRearmed(w: World, step: Step, c: Conn, isClt: bool)
    requires WorldInv(w) && IsAt(w.pool, c, Busy)
    requires IsEventOf(w, step, c, if isClt then w.pool.made[c].clt else w.pool.made[c].srv)
    requires !ClientCloses(w, step, c, w.links[c].srvClosed)
    ensures var e, l, w' := step.e, w.links[c], AfterStep(w, step);
            && c in w'.links && w'.links[c] == NextLink(l, isClt, e.op, e.recvs, e.sends)
            && w'.pool == w.pool.(epoll :=
                 RearmedFor(w.pool, c, isClt, e.op, Code(l, isClt, e.op, e.recvs, e.sends)))
  {
    assert Uses(w.pool, c, step.e.fd);
    FailsIff(w.links[c], isClt, step.e.op, step.e.recvs, step.e.sends);
  }

  /**
   * What a connection is armed for behind an event of its client that does not free it: behind a READ the server for
   * output, if bytes are pending for it; behind a WRITE the client for output as long as bytes are, and then both ends
   * for input.
   */
  lemma ClientEventArms(w: World, step: Step, c: Conn)
    requires WorldInv(w) && IsAt(w.pool, c, Busy) && IsEventOf(w, step, c, w.pool.made[c].clt)
    requires !ClientCloses(w, step, c, w.links[c].srvClosed)
    ensures var p, e, w' := w.pool, w.pool.made[c], AfterStep(w, step);
            && c in w'.links
            && var l' := w'.links[c];
            w'.pool == p.(epoll :=
              match step.e.op
              case READ => if Pending(l'.up) != "" then p.epoll[e.srv := EPOLLOUT] else p.epoll
              case WRITE =>
                if Pending(l'.down) != "" then p.epoll[e.clt := EPOLLOUT]
                else p.epoll[e.srv := EPOLLIN][e.clt := EPOLLIN]
              case ERROR => p.epoll)
  {
    var e, l, p := step.e, w.links[c], w.pool;
    KeptIsRearmed(w, step, c, true);
    match e.op
    case READ => ReadIsArmed(l, true, e.recvs, e.sends, p.epoll, p.made[c].clt, p.made[c].srv);
    case WRITE => WriteIsArmed(l, true, e.recvs, e.sends, p.epoll, p.made[c].clt, p.made[c].srv);
    case ERROR =>
  }

  /** The same behind an event of its server; and when the server fails, the client is armed for output. */
  lemma ServerEventArms(w: World, step: Step, c: Conn)
    requires WorldInv(w) && IsAt(w.pool, c, Busy) && IsEventOf(w, step, c, w.pool.made[c].srv)
    ensures var p, e, w' := w.pool, w.pool.made[c], AfterStep(w, step);
            && c in w'.links
            && var l' := w'.links[c];
            w'.pool == p.(epoll :=
              if ServerFails(w, step, c) then p.epoll[e.clt := EPOLLOUT]
              else
                match step.e.op
                case READ => if Pending(l'.down) != "" then p.epoll[e.clt := EPOLLOUT] else p.epoll
                case WRITE =>
                  if Pending(l'.up) != "" then p.epoll[e.srv := EPOLLOUT]
                  else p.epoll[e.clt := EPOLLIN][e.srv := EPOLLIN]
                case ERROR => p.epoll)
  {
    var e, l, p := step.e, w.links[c], w.pool;
    assert Uses(p, c, p.made[c].srv);
    KeptIsRearmed(w, step, c, false);
    if ServerFails(w, step, c) {
      FailureIsArmed(l, false, e.op, e.recvs, e.sends, p.epoll, p.made[c].srv, p.made[c].clt);
    } else {
      match e.op
      case READ => ReadIsArmed(l, false, e.recvs, e.sends, p.epoll, p.made[c].srv, p.made[c].clt);
      case WRITE => WriteIsArmed(l, false, e.recvs, e.sends, p.epoll, p.made[c].srv, p.made[c].clt);
      case ERROR =>
    }
  }

  /** The steps of the events of a batch. */
  function HandleAll(events: seq<Event>, watched: set<int>): (steps: seq<Step>) {
    seq(|events|, k requires 0 <= k < |events| => Handle(events[k], watched))
  }

  lemma FollowsJoined(ws: seq<World>, steps: seq<Step>, ws': seq<World>, steps': seq<Step>, k: nat)
    requires IsTrace(ws, steps) && IsTrace(ws', steps') && ws[|steps|] == ws'[0] && k < |steps| + |steps'|
    ensures Follows(ws + ws'[1..], steps + steps', k)
  {
    var vs, all := ws + ws'[1..], steps + steps';
    if k < |steps| {
      assert Follows(ws, steps, k);
      assert vs[k] == ws[k] && vs[k + 1] == ws[k + 1] && all[k] == steps[k];
    } else {
      assert Follows(ws', steps', k - |steps|);
      assert vs[k] == ws'[k - |steps|] && vs[k + 1] == ws'[k + 1 - |steps|] && all[k] == steps'[k - |steps|];
    }
  }

  /** Two runs, the second from where the first ends. */
  lemma TraceJoins(ws: seq<World>, steps: seq<Step>, ws': seq<World>, steps': seq<Step>) returns (vs: seq<World>)
    requires IsTrace(ws, steps) && IsTrace(ws', steps') && ws[|steps|] == ws'[0]
    ensures IsTrace(vs, steps + steps') && vs[0] == ws[0] && vs[|steps| + |steps'|] == ws'[|steps'|]
  {
    vs := ws + ws'[1..];
    forall k | 0 <= k < |steps| + |steps'| ensures Follows(vs, steps + steps', k) {
      FollowsJoined(ws, steps, ws', steps', k);
    }
  }

  lemma TraceOfOne(w: World, step: Step)
    requires WorldInv(w)
    ensures IsTrace([w, AfterStep(w, step)], [step])
  {
  }

  /** The loop over the events of a batch is such a run. */
  lemma {:induction false} TraceOfEvents(w: World, events: seq<Event>, watched: set<int>) returns (ws: seq<World>)
    requires WorldInv(w)
    ensures IsTrace(ws, HandleAll(events, watched)) && ws[0] == w && ws[|events|] == AfterEvents(w, events, watched)
    decreases |events|
  {
    if events == [] {
      ws := [w];
    } else {
      var step := Handle(events[0], watched);
      EventKeepsInv(w, events[0], watched);
      var next := AfterStep(w, step);
      var rest := TraceOfEvents(next, events[1..], watched);
      TraceOfOne(w, step);
      ws := TraceJoins([w, next], [step], rest, HandleAll(events[1..], watched));
      assert [step] + HandleAll(events[1..], watched) == HandleAll(events, watched);
    }
  }

  lemma TraceOfBatch(w: World, b: Batch) returns (ws: seq<World>, steps: seq<Step>)
    requires WorldInv(w)
    ensures IsTrace(ws, steps) && ws[0] == w && ws[|steps|] == AfterBatch(w, b)
  {
    match b
    case Events(events) =>
      ws := TraceOfEvents(w, events, w.pool.epoll.Keys);
      steps := HandleAll(events, w.pool.epoll.Keys);
    case Quiet(wishes) =>
      steps := [TimeOut(wishes)];
      ws := [w, AfterStep(w, steps[0])];
      TraceOfOne(w, steps[0]);
  }

  /** And so is the main loop of a child, from any world to the one it ends in. */
  lemma {:induction false} TraceOfRun(w: World, batches: seq<Batch>) returns (ws: seq<World>, steps: seq<Step>)
    requires WorldInv(w)
    ensures IsTrace(ws, steps) && ws[0] == w && ws[|steps|] == AfterRun(w, batches)
    decreases |batches|
  {
    if batches == [] {
      ws, steps := [w], [];
    } else {
      var first, done := TraceOfBatch(w, batches[0]);
      var rest, todo := TraceOfRun(AfterBatch(w, batches[0]), batches[1..]);
      ws := TraceJoins(first, done, rest, todo);
      steps := done + todo;
    }
  }

  // ----- Exactly when the pool stays as it is meant to be

  /** The pool is intact before, between and behind the events. */
  ghost predicate StaysIntact(w: World, events: seq<Event>, watched: set<int>)
    requires WorldInv(w)
    decreases |events|
  {
    && PoolInv(w.pool)
    && if events == [] then true
       else
         EventKeepsInv(w, events[0], watched);
         StaysIntact(AfterEvent(w, events[0], watched), events[1..], watched)
  }

  ghost predicate NoneStale(w: World, events: seq<Event>, watched: set<int>)
    requires WorldInv(w)
    decreases |events|
  {
    if events == [] then true
    else
      EventKeepsInv(w, events[0], watched);
      && !IsStale(events[0], watched, w.pool.used.Keys)
      && NoneStale(AfterEvent(w, events[0], watched), events[1..], watched)
  }

  lemma {:induction false} IntactIff(w: World, events: seq<Event>, watched: set<int>)
    requires WorldInv(w) && PoolInv(w.pool)
    ensures StaysIntact(w, events, watched) <==> NoneStale(w, events, watched)
    ensures NoneStale(w, events, watched) ==> PoolInv(AfterEvents(w, events, watched).pool)
    decreases |events|
  {
    if events != [] {
      EventKeepsInv(w, events[0], watched);
      var next := AfterEvent(w, events[0], watched);
      if PoolInv(next.pool) {
        IntactIff(next, events[1..], watched);
      }
    }
  }

  ghost predicate RunStaysIntact(w: World, batches: seq<Batch>)
    requires WorldInv(w)
    decreases |batches|
  {
    && PoolInv(w.pool)
    && (batches != [] ==>
          && (batches[0].Events? ==> StaysIntact(w, batches[0].events, w.pool.epoll.Keys))
          && RunStaysIntact(AfterBatch(w, batches[0]), batches[1..]))
  }

  ghost predicate RunHasNoneStale(w: World, batches: seq<Batch>)
    requires WorldInv(w)
    decreases |batches|
  {
    batches != [] ==>
      && (batches[0].Events? ==> NoneStale(w, batches[0].events, w.pool.epoll.Keys))
      && RunHasNoneStale(AfterBatch(w, batches[0]), batches[1..])
  }

  /** Over a whole run the pool is intact at every moment if and only if no event is stale when it is handled. */
  lemma {:induction false} RunIntactIff(w: World, batches: seq<Batch>)
    requires WorldInv(w) && PoolInv(w.pool)
    ensures RunStaysIntact(w, batches) <==> RunHasNoneStale(w, batches)
    decreases |batches|
  {
    if batches != [] {
      match batches[0]
      case Events(events) =>
        IntactIff(w, events, w.pool.epoll.Keys);
        if NoneStale(w, events, w.pool.epoll.Keys) {
          RunIntactIff(AfterBatch(w, batches[0]), batches[1..]);
        }
      case Quiet(wishes) =>
        QuietKeepsInv(w, wishes);
        RunIntactIff(AfterBatch(w, batches[0]), batches[1..]);
    }
  }

  // ----- Which events are stale

  /** During a batch busy connections stay as they are or are freed, and freed ones stay freed. */
  ghost predicate Since(p: Pool, q: Pool) {
    && (forall c | IsAt(p, c, Busy) :: c in q.made && (q.made[c] == p.made[c] || q.made[c].place == Freed))
    && (forall c | IsAt(p, c, Freed) :: IsAt(q, c, Freed))
  }

  lemma ClientSince(w: World, connfd: int)
    requires WorldInv(w)
    ensures Since(w.pool, AfterClient(w, connfd).pool)
  {
    if Binds(w.pool, connfd) {
      PickMoves(w.pool, connfd);
    }
  }

  lemma ReadySince(w: World, fd: int, op: OpType, recvs: seq<RecvAnswer>, sends: seq<SendAnswer>)
    requires WorldInv(w)
    ensures Since(w.pool, AfterReady(w, fd, op, recvs, sends).pool)
  {
    if Found(w.pool, fd) {
      assert Uses(w.pool, UserOf(w.pool, fd), fd);
    }
  }

  lemma EventSince(w: World, e: Event, watched: set<int>)
    requires WorldInv(w)
    ensures Since(w.pool, AfterEvent(w, e, watched).pool)
  {
    match e
    case Client(connfd) => ClientSince(w, connfd);
    case Ready(fd, op, recvs, sends) => ReadySince(w, fd, op, recvs, sends);
  }

  lemma SinceThen(p: Pool, q: Pool, r: Pool)
    requires Since(p, q) && Since(q, r)
    ensures Since(p, r)
  {
    forall c | IsAt(p, c, Busy) ensures c in r.made && (r.made[c] == p.made[c] || r.made[c].place == Freed) {
      assert IsAt(q, c, Busy) || IsAt(q, c, Freed);
    }
    forall c | IsAt(p, c, Freed) ensures IsAt(r, c, Freed) {
      assert IsAt(q, c, Freed);
    }
  }

  lemma {:induction false} BatchSince(w: World, events: seq<Event>, watched: set<int>)
    requires WorldInv(w)
    ensures Since(w.pool, AfterEvents(w, events, watched).pool)
    decreases |events|
  {
    if events != [] {
      EventKeepsInv(w, events[0], watched);
      var next := AfterEvent(w, events[0], watched);
      EventSince(w, events[0], watched);
      BatchSince(next, events[1..], watched);
      SinceThen(w.pool, next.pool, AfterEvents(w, events, watched).pool);
    }
  }

  /**
   * An event of a watched descriptor is stale if and only if earlier events of the same batch have freed the
   * connection `c` that used it, and no client that was accepted since uses it.
   */
  lemma StaleIff(w: World, earlier: seq<Event>, e: Event, c: Conn)
    requires WorldInv(w) && e.Ready? && Uses(w.pool, c, e.fd)
    ensures var p := AfterEvents(w, earlier, w.pool.epoll.Keys).pool;
            PoolInv(p) ==>
              (IsStale(e, w.pool.epoll.Keys, p.used.Keys) <==>
                IsAt(p, c, Freed) && forall d | d in p.made :: !Uses(p, d, e.fd))
  {
    BatchSince(w, earlier, w.pool.epoll.Keys);
    var p := AfterEvents(w, earlier, w.pool.epoll.Keys).pool;
    assert e.fd in w.pool.epoll;
    if !IsAt(p, c, Freed) {
      assert Uses(p, c, e.fd);
    }
  }

  // ----- What a stale event does to a client

  /** Nothing more is received from the client of `c` nor sent to it. */
  ghost predicate NotServed(c: Conn, w: World, w': World) {
    && c in w.links && c in w'.links
    && w'.links[c].up.received == w.links[c].up.received && w'.links[c].down.sent == w.links[c].down.sent
  }

  lemma TransferHides(w: World, d: Conn, isClt: bool, op: OpType, recvs: seq<RecvAnswer>, sends: seq<SendAnswer>,
                      c: Conn, fd: int)
    requires WorldInv(w) && IsAt(w.pool, d, Busy) && IsHidden(w.pool, c, fd) && (c == d ==> !isClt)
    ensures var w' := AfterTransfer(w, d, isClt, op, recvs, sends); IsHidden(w'.pool, c, fd) && NotServed(c, w, w')
  {
    if c != d {
      assert GoesBy(w.pool, c, fd) && GoesBy(w.pool, d, w.pool.made[d].clt) && GoesBy(w.pool, d, w.pool.made[d].srv);
    }
  }

  lemma EventHides(w: World, e: Event, watched: set<int>, c: Conn, fd: int)
    requires WorldInv(w) && IsHidden(w.pool, c, fd)
    ensures var w' := AfterEvent(w, e, watched); IsHidden(w'.pool, c, fd) && NotServed(c, w, w')
  {
    match e
    case Client(connfd) =>
      if Binds(w.pool, connfd) {
        PickMoves(w.pool, connfd);
      }
    case Ready(fd', op, recvs, sends) =>
      if fd' in watched && Found(w.pool, fd') {
        var d := UserOf(w.pool, fd');
        assert Uses(w.pool, d, fd');
        TransferHides(w, d, fd' == w.pool.made[d].clt, op, recvs, sends, c, fd);
      }
  }

  lemma {:induction false} EventsHide(w: World, events: seq<Event>, watched: set<int>, c: Conn, fd: int)
    requires WorldInv(w) && IsHidden(w.pool, c, fd)
    ensures var w' := AfterEvents(w, events, watched); IsHidden(w'.pool, c, fd) && NotServed(c, w, w')
    decreases |events|
  {
    if events != [] {
      EventKeepsInv(w, events[0], watched);
      EventHides(w, events[0], watched, c, fd);
      EventsHide(AfterEvent(w, events[0], watched), events[1..], watched, c, fd);
    }
  }

  /** A client whose connection is not found under its descriptor is not served any more, whatever happens. */
  lemma {:induction false} HiddenForever(w: World, batches: seq<Batch>, c: Conn, fd: int)
    requires WorldInv(w) && IsHidden(w.pool, c, fd)
    ensures var w' := AfterRun(w, batches); IsHidden(w'.pool, c, fd) && NotServed(c, w, w')
    decreases |batches|
  {
    if batches != [] {
      match batches[0] {
        case Events(events) =>
          EventsHide(w, events, w.pool.epoll.Keys, c, fd);
        case Quiet(wishes) =>
          RecycleKeepsInv(w.pool, wishes);
      }
      HiddenForever(AfterBatch(w, batches[0]), batches[1..], c, fd);
    }
  }

  /** The event of the client frees the connection, that of the server is stale, and its number is given to a client. */
  function StaleBatch(e: Entry, op: OpType, recvs: seq<RecvAnswer>, sends: seq<SendAnswer>, late: Event)
    : (events: seq<Event>)
  {
    [Ready(e.clt, op, recvs, sends), late, Client(e.srv)]
  }

  lemma OneEvent(w: World, e: Event, watched: set<int>)
    requires WorldInv(w)
    ensures AfterEvents(w, [e], watched) == AfterEvent(w, e, watched)
  {
    EventKeepsInv(w, e, watched);
    assert [e][1..] == [];
  }

  lemma ThreeEvents(w: World, e: Event, e': Event, e'': Event, watched: set<int>)
    requires WorldInv(w)
    ensures var w1 := AfterEvent(w, e, watched);
            && WorldInv(w1)
            && var w2 := AfterEvent(w1, e', watched);
            && WorldInv(w2) && AfterEvents(w, [e, e', e''], watched) == AfterEvent(w2, e'', watched)
  {
    EventKeepsInv(w, e, watched);
    var w1 := AfterEvent(w, e, watched);
    EventKeepsInv(w1, e', watched);
    var w2 := AfterEvent(w1, e', watched);
    OneEvent(w2, e'', watched);
    assert [e', e''][1..] == [e''] && [e, e', e''][1..] == [e', e''];
    assert AfterEvents(w1, [e', e''], watched) == AfterEvents(w2, [e''], watched);
  }

  /** The call of the client's event meets a failure, or the server is gone. */
  ghost predicate ClosesClient(l: Link, op: OpType, recvs: seq<RecvAnswer>, sends: seq<SendAnswer>) {
    !op.ERROR? && (MeetsFailure(l, true, op, recvs, sends) || l.srvClosed)
  }

  lemma FreeingEvent(w: World, c: Conn, op: OpType, recvs: seq<RecvAnswer>, sends: seq<SendAnswer>)
    requires WorldInv(w) && IsAt(w.pool, c, Busy) && Found(w.pool, w.pool.made[c].clt)
    requires ClosesClient(w.links[c], op, recvs, sends)
    ensures w.pool.made[c].clt in w.pool.epoll && w.pool.made[c].srv in w.pool.epoll
    ensures AfterReady(w, w.pool.made[c].clt, op, recvs, sends)
         == World(AfterFree(w.pool, c), w.links[c := NEW_LINK])
  {
    assert Uses(w.pool, c, w.pool.made[c].clt) && Uses(w.pool, c, w.pool.made[c].srv);
    FailsIff(w.links[c], true, op, recvs, sends);
  }

  /** What freeing leaves: the number of the server is closed and not in use. */
  lemma FreedNumber(p: Pool, c: Conn)
    requires LaxInv(p) && IsAt(p, c, Busy)
    ensures var q := AfterFree(p, c);
            && LaxInv(q) && q.conns == p.conns
            && p.made[c].srv >= 0 && p.made[c].srv !in q.open && p.made[c].srv !in q.used
  {
    FreeKeepsInv(p, c);
    assert GoesBy(p, c, p.made[c].srv);
  }

  /**
   * One batch is enough to hide a client: an event of one end frees the connection, the event of the other end is
   * stale, and the kernel gives its number to a new client.
   */
  lemma StaleBatchHides(w: World, c: Conn, op: OpType, recvs: seq<RecvAnswer>, sends: seq<SendAnswer>, late: Event)
    requires WorldInv(w) && IsAt(w.pool, c, Busy) && Found(w.pool, w.pool.made[c].clt) && NonEmpty(w.pool.conns.Keys)
    requires ClosesClient(w.links[c], op, recvs, sends)
    requires late.Ready? && late.fd == w.pool.made[c].srv
    ensures var e := w.pool.made[c];
            var w' := AfterEvents(w, StaleBatch(e, op, recvs, sends, late), w.pool.epoll.Keys);
            var d := w.pool.conns[Least(w.pool.conns.Keys)];
            IsHidden(w'.pool, d, e.srv) && d in w'.links && w'.links[d] == NEW_LINK
  {
    var e, watched := w.pool.made[c], w.pool.epoll.Keys;
    FreeingEvent(w, c, op, recvs, sends);
    ThreeEvents(w, Ready(e.clt, op, recvs, sends), late, Client(e.srv), watched);
    var freed := World(AfterFree(w.pool, c), w.links[c := NEW_LINK]);
    FreedNumber(w.pool, c);
    var broken := freed.(pool := AfterLookUp(freed.pool, e.srv));
    assert AfterEvent(freed, late, watched) == broken;
    assert AfterEvent(broken, Client(e.srv), watched) == broken.(pool := AfterPick(broken.pool, e.srv));
    StaleLookUpHidesClient(freed.pool, e.srv);
    assert IsAt(w.pool, w.pool.conns[Least(w.pool.conns.Keys)], Idle);
  }

  /** That client is never served, whatever comes after the batch. */
  lemma StaleEventHidesClient(w: World, c: Conn, op: OpType, recvs: seq<RecvAnswer>, sends: seq<SendAnswer>,
                              late: Event, batches: seq<Batch>)
    requires WorldInv(w) && IsAt(w.pool, c, Busy) && Found(w.pool, w.pool.made[c].clt) && NonEmpty(w.pool.conns.Keys)
    requires ClosesClient(w.links[c], op, recvs, sends)
    requires late.Ready? && late.fd == w.pool.made[c].srv
    ensures var e := w.pool.made[c];
            var w' := AfterRun(AfterBatch(w, Events(StaleBatch(e, op, recvs, sends, late))), batches);
            var d := w.pool.conns[Least(w.pool.conns.Keys)];
            IsHidden(w'.pool, d, e.srv) && d in w'.links && w'.links[d].up.received == w'.links[d].down.sent == ""
  {
    var e := w.pool.made[c];
    StaleBatchHides(w, c, op, recvs, sends, late);
    var d := w.pool.conns[Least(w.pool.conns.Keys)];
    HiddenForever(AfterBatch(w, Events(StaleBatch(e, op, recvs, sends, late))), batches, d, e.srv);
  }

  lemma ClosingFrees(recvs: seq<RecvAnswer>)
    requires recvs == [Bytes("")]
    ensures ClosesClient(NEW_LINK, READ, recvs, [])
  {
    assert StopsAt(recvs, 0) && recvs[..0] == [];
  }

  /** A client that comes gets the first idle connection. */
  lemma ClientComes(w: World, a: int)
    requires WorldInv(w) && Binds(w.pool, a)
    ensures AfterBatch(w, Events([Client(a)])) == w.(pool := AfterPick(w.pool, a))
  {
    OneEvent(w, Client(a), w.pool.epoll.Keys);
  }

  /** It is found under the descriptor of the client, and nothing was sent or received yet. */
  lemma ClientIsFound(w: World, a: int)
    requires WorldInv(w) && PoolInv(w.pool) && Binds(w.pool, a)
    ensures var fd := Least(w.pool.conns.Keys);
            var c := w.pool.conns[fd];
            var q := AfterPick(w.pool, a);
            && c in q.made && q.made[c] == Entry(Busy, a, fd) && c in w.links && w.links[c] == NEW_LINK
            && Found(q, a) && q.conns == w.pool.conns - {fd}
  {
    PickMoves(w.pool, a);
    PickKeepsInv(w.pool, a);
    var c := w.pool.conns[Least(w.pool.conns.Keys)];
    assert IsAt(w.pool, c, Idle) && Uses(AfterPick(w.pool, a), c, a);
  }

  /** The batches that hide a client: one comes and closes, in one batch with an event of its server. */
  function Hiding(a: int, fd: int): (batches: seq<Batch>) {
    [Events([Client(a)]), Events(StaleBatch(Entry(Busy, a, fd), READ, [Bytes("")], [], Ready(fd, READ, [], [])))]
  }

  lemma TwoBatches(w: World, b: Batch, b': Batch, later: seq<Batch>)
    requires WorldInv(w)
    ensures AfterRun(w, [b, b'] + later) == AfterRun(AfterBatch(AfterBatch(w, b), b'), later)
  {
    assert ([b, b'] + later)[1..] == [b'] + later && ([b'] + later)[1..] == later;
    assert AfterRun(AfterBatch(w, b), [b'] + later) == AfterRun(AfterBatch(AfterBatch(w, b), b'), later);
  }

  /** Two idle connections are enough: the next client gets the server's number and is never served. */
  lemma RunHidesClient(w: World, a: int, later: seq<Batch>) returns (d: Conn)
    requires WorldInv(w) && PoolInv(w.pool) && Binds(w.pool, a)
    requires NonEmpty(w.pool.conns.Keys - {Least(w.pool.conns.Keys)})
    ensures var fd := Least(w.pool.conns.Keys);
            var w' := AfterRun(w, Hiding(a, fd) + later);
            && IsHidden(w'.pool, d, fd)
            && d in w'.links && w'.links[d].up.received == w'.links[d].down.sent == ""
  {
    var fd := Least(w.pool.conns.Keys);
    var c := w.pool.conns[fd];
    var first := AfterBatch(w, Events([Client(a)]));
    ClientComes(w, a);
    ClientIsFound(w, a);
    ClosingFrees([Bytes("")]);
    assert NonEmpty(first.pool.conns.Keys) by {
      var x :| x in w.pool.conns.Keys - {fd};
      assert x in first.pool.conns.Keys;
    }
    d := first.pool.conns[Least(first.pool.conns.Keys)];
    StaleEventHidesClient(first, c, READ, [Bytes("")], [], Ready(fd, READ, [], []), later);
    TwoBatches(w, Hiding(a, fd)[0], Hiding(a, fd)[1], later);
  }
}
