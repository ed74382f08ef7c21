/** The main loop of a child process of springsnail, on the objects and maps of its pool. */
module ProxyRun {
  import opened ProxyConn
  import opened ProxyPool
  import opened ProxyServer
  import opened ProxyWorld
  import opened Sockets

  /** The objects and maps are as `w` says. */
  ghost predicate Shows(m: Mgr, w: World)
    reads m, m.made.Keys, BuffersOf(m.made.Keys)
  {
    m.Sound() && m.Abs() == w.pool && w.links.Keys == m.made.Keys && HoldAll(m.made.Keys, w.links)
  }

  lemma ProcessedIsReady(w: World, fd: int, op: OpType, recvs: seq<RecvAnswer>, sends: seq<SendAnswer>, res: RetCode,
                         w': World)
    requires WorldInv(w) && Processed(w.pool, w.links, fd, op, recvs, sends, res, w'.pool, w'.links)
    ensures w' == AfterReady(w, fd, op, recvs, sends) && w'.links.Keys == w.links.Keys
  {
  }

  /** An event of a descriptor. */
  method OnReady(m: Mgr, fd: int, op: OpType, recvs: seq<RecvAnswer>, sends: seq<SendAnswer>, ghost w: World)
    requires Shows(m, w) && WorldInv(w)
    modifies m, m.made.Keys, BuffersOf(m.made.Keys)
    ensures m.made.Keys == old(m.made.Keys) && Shows(m, AfterReady(w, fd, op, recvs, sends))
  {
    m.OwnedIsMade(fd);
    ghost var links';
    var res;
    res, links' := m.Process(fd, op, recvs, sends, w.links);
    ProcessedIsReady(w, fd, op, recvs, sends, res, World(m.Abs(), links'));
  }

  method CallAccept(m: Mgr, connfd: int, ghost w: World)
    requires Shows(m, w) && m.Valid() && m.Next() <= m.made.Keys && connfd >= 0 && connfd !in m.open
    modifies m, m.made.Keys`cltfd
    ensures m.made.Keys == old(m.made.Keys)
    ensures Shows(m, w.(pool := if NonEmpty(w.pool.conns.Keys) then AfterPick(w.pool, connfd) else w.pool))
  {
    var c := m.Accept(connfd, m.made.Keys, w.links);
  }

  lemma NextIsMade(m: Mgr)
    requires m.Valid()
    ensures m.Next() <= m.made.Keys
  {
    m.PickedIsNew();
  }

  /** A new client. */
  method OnClient(m: Mgr, connfd: int, ghost w: World)
    requires Shows(m, w) && WorldInv(w)
    modifies m, m.made.Keys`cltfd
    ensures m.made.Keys == old(m.made.Keys) && Shows(m, AfterClient(w, connfd))
  {
    if connfd >= 0 && connfd !in m.open {
      NextIsMade(m);
      CallAccept(m, connfd, w);
    }
  }

  /** `epoll_wait` has timed out. */
  method OnQuiet(m: Mgr, wishes: map<int, int>, ghost w: World)
    requires Shows(m, w) && WorldInv(w)
    modifies m, m.made.Keys
    ensures m.made.Keys == old(m.made.Keys) && Shows(m, AfterBatch(w, Quiet(wishes)))
  {
    QuietKeepsInv(w, wishes);
    m.RecycleConns(wishes, m.made.Keys, w.links);
  }

  method Dispatch(m: Mgr, e: Event, watched: set<int>, ghost w: World)
    requires Shows(m, w) && WorldInv(w)
    modifies m, m.made.Keys, BuffersOf(m.made.Keys)
    ensures m.made.Keys == old(m.made.Keys) && Shows(m, AfterEvent(w, e, watched))
  {
    match e {
      case Client(connfd) =>
        OnClient(m, connfd, w);
      case Ready(fd, op, recvs, sends) =>
        if fd in watched {
          OnReady(m, fd, op, recvs, sends, w);
        }
    }
  }

  /** The loop over the events of a batch. */
  method RunBatch(m: Mgr, events: seq<Event>, ghost w: World)
    requires Shows(m, w) && WorldInv(w)
    modifies m, m.made.Keys, BuffersOf(m.made.Keys)
    ensures m.made.Keys == old(m.made.Keys) && Shows(m, AfterEvents(w, events, w.pool.epoll.Keys))
  {
    var watched := m.epoll.Keys;
    ghost var now := w;
    for k := 0 to |events|
      invariant m.made.Keys == old(m.made.Keys) && Shows(m, now) && WorldInv(now)
      invariant AfterEvents(now, events[k..], watched) == AfterEvents(w, events, watched)
    {
      assert events[k..][1..] == events[k + 1..];
      EventKeepsInv(now, events[k], watched);
      Dispatch(m, events[k], watched, now);
      now := AfterEvent(now, events[k], watched);
    }
  }

  // ----- From the start

  /** One more connect, behind those that gave `fds`. */
  function ConnectedNext(open: set<int>, fds: seq<int>, wish: int): (fds': seq<int>) {
    var sockfd := Sockfd(wish, open + set fd | fd in fds);
    if sockfd < 0 then fds else fds + [sockfd]
  }

  /** The descriptors of the connects that succeed, in order. */
  function Connected(open: set<int>, wishes: seq<int>): (fds: seq<int>) {
    if wishes == [] then []
    else ConnectedNext(open, Connected(open, wishes[..|wishes| - 1]), wishes[|wishes| - 1])
  }

  lemma ConnectedStep(open: set<int>, wishes: seq<int>, k: nat)
    requires k < |wishes|
    ensures Connected(open, wishes[..k + 1]) == ConnectedNext(open, Connected(open, wishes[..k]), wishes[k])
  {
    assert wishes[..k + 1][..k] == wishes[..k];
  }

  /** The pool behind its constructor: the connections `cs`, all idle under the descriptors `fds`. */
  ghost predicate IsStart(p: Pool, open: set<int>, fds: seq<int>, cs: seq<Conn>) {
    && |cs| == |fds| && p.used == map[] && p.freed == map[] && p.epoll == map[]
    && p.open == (open + set fd | fd in fds) && p.conns.Keys == (set fd | fd in fds) && p.made.Keys == (set c | c in cs)
    && (forall i, j | 0 <= i < j < |cs| :: cs[i] != cs[j])
    && (forall i | 0 <= i < |cs| :: p.conns[fds[i]] == cs[i] && p.made[cs[i]] == Entry(Idle, -1, fds[i]))
  }

  lemma StartGrows(p: Pool, open: set<int>, fds: seq<int>, cs: seq<Conn>, c: Conn, sockfd: int)
    requires IsStart(p, open, fds, cs) && c !in p.made && sockfd !in p.open
    ensures IsStart(AfterMake(p, c, sockfd), open, fds + [sockfd], cs + [c])
  {
    var q := AfterMake(p, c, sockfd);
    var fds', cs' := fds + [sockfd], cs + [c];
    assert sockfd !in fds && c !in cs;
    assert (set fd | fd in fds') == (set fd | fd in fds) + {sockfd};
    assert (set d | d in cs') == (set d | d in cs) + {c};
    forall i | 0 <= i < |cs'| ensures q.conns[fds'[i]] == cs'[i] && q.made[cs'[i]] == Entry(Idle, -1, fds'[i]) {
      if i < |cs| {
        assert fds[i] in fds && cs[i] in cs;
      }
    }
  }

  /** No connection has any bytes yet. */
  ghost function NewLinks(cs: seq<Conn>): (links: map<Conn, Link>)
    ensures links.Keys == (set c | c in cs) && forall c | c in links :: links[c] == NEW_LINK
  {
    if cs == [] then map[]
    else
      assert cs == cs[..|cs| - 1] + [cs[|cs| - 1]];
      NewLinks(cs[..|cs| - 1])[cs[|cs| - 1] := NEW_LINK]
  }

  /** One turn of the loops of the constructor. */
  method BuildNext(m: Mgr, wish: int, ghost open: set<int>, ghost fds: seq<int>, ghost cs: seq<Conn>)
    returns (ghost cs': seq<Conn>)
    requires m.Sound() && PoolInv(m.Abs()) && IsStart(m.Abs(), open, fds, cs)
    modifies m`conns, m`open, m`made
    ensures m.Sound() && PoolInv(m.Abs()) && IsStart(m.Abs(), open, ConnectedNext(open, fds, wish), cs')
    ensures forall c | c in m.made && c !in old(m.made) :: fresh(c) && fresh(c.cltBuf) && fresh(c.srvBuf)
  {
    ghost var p := m.Abs();
    var tmp := m.Build(wish);
    if tmp == null {
      cs' := cs;
    } else {
      StartGrows(p, open, fds, cs, tmp, wish);
      cs' := cs + [tmp];
    }
  }

  /** The loops of the constructor; `cs` are the objects that it makes, in order. */
  method BuildAll(open: set<int>, wishes: seq<int>) returns (m: Mgr, ghost cs: seq<Conn>)
    requires forall fd | fd in open :: fd >= 0
    ensures fresh(m) && forall c | c in m.made :: fresh(c) && fresh(c.cltBuf) && fresh(c.srvBuf)
    ensures m.Sound() && PoolInv(m.Abs()) && IsStart(m.Abs(), open, Connected(open, wishes), cs)
  {
    m := new Mgr(open);
    cs := [];
    for i := 0 to |wishes|
      invariant fresh(m) && forall c | c in m.made :: fresh(c) && fresh(c.cltBuf) && fresh(c.srvBuf)
      invariant m.Sound() && PoolInv(m.Abs()) && IsStart(m.Abs(), open, Connected(open, wishes[..i]), cs)
    {
      ConnectedStep(open, wishes, i);
      cs := BuildNext(m, wishes[i], open, Connected(open, wishes[..i]), cs);
    }
    assert wishes[..|wishes|] == wishes;
  }

  lemma StartIsIdle(p: Pool, open: set<int>, fds: seq<int>, cs: seq<Conn>)
    requires IsStart(p, open, fds, cs)
    ensures forall c | c in p.made :: c in cs && p.made[c].place == Idle
  {
  }

  lemma NewHold(m: Mgr, links: map<Conn, Link>)
    requires m.Sound() && m.made.Keys <= links.Keys
    requires forall c | c in m.made :: m.made[c].place == Idle && links[c] == NEW_LINK
    ensures HoldAll(m.made.Keys, links)
  {
    forall c | c in m.made ensures Holds(c, links[c]) {
      assert Intact(c, m.made[c]);
      HoldsItsView(c, NEW_LINK);
    }
  }

  lemma NewLinksInv(made: map<Conn, Entry>, links: map<Conn, Link>)
    requires links.Keys == made.Keys && forall c | c in links :: links[c] == NEW_LINK
    ensures LinksInv(made, links)
  {
  }

  /** The world that the constructor leaves. */
  ghost function StartOf(p: Pool, cs: seq<Conn>): (w: World) {
    World(p, NewLinks(cs))
  }

  lemma StartShows(m: Mgr, open: set<int>, fds: seq<int>, cs: seq<Conn>)
    requires m.Sound() && IsStart(m.Abs(), open, fds, cs)
    ensures Shows(m, StartOf(m.Abs(), cs)) && LinksInv(m.made, NewLinks(cs))
  {
    StartIsIdle(m.Abs(), open, fds, cs);
    NewHold(m, NewLinks(cs));
    NewLinksInv(m.made, NewLinks(cs));
  }

  method BuildStart(open: set<int>, wishes: seq<int>) returns (m: Mgr, ghost cs: seq<Conn>, ghost start: World)
    requires forall fd | fd in open :: fd >= 0
    ensures fresh(m) && forall c | c in m.made :: fresh(c) && fresh(c.cltBuf) && fresh(c.srvBuf)
    ensures IsStart(start.pool, open, Connected(open, wishes), cs) && start.links == NewLinks(cs)
    ensures WorldInv(start) && PoolInv(start.pool) && Shows(m, start)
  {
    m, cs := BuildAll(open, wishes);
    start := StartOf(m.Abs(), cs);
    StartShows(m, open, Connected(open, wishes), cs);
  }

  /** One turn of the main loop. */
  method RunOnce(m: Mgr, batch: Batch, ghost w: World)
    requires Shows(m, w) && WorldInv(w)
    modifies m, m.made.Keys, BuffersOf(m.made.Keys)
    ensures m.made.Keys == old(m.made.Keys) && Shows(m, AfterBatch(w, batch))
  {
    match batch {
      case Quiet(wishes) => OnQuiet(m, wishes, w);
      case Events(events) => RunBatch(m, events, w);
    }
  }

  method RunAll(m: Mgr, batches: seq<Batch>, ghost w: World)
    requires Shows(m, w) && WorldInv(w)
    modifies m, m.made.Keys, BuffersOf(m.made.Keys)
    ensures m.made.Keys == old(m.made.Keys) && Shows(m, AfterRun(w, batches)) && m.Valid()
  {
    ghost var now := w;
    for k := 0 to |batches|
      invariant m.made.Keys == old(m.made.Keys) && Shows(m, now) && WorldInv(now)
      invariant AfterRun(now, batches[k..]) == AfterRun(w, batches)
    {
      assert batches[k..][1..] == batches[k + 1..];
      RunOnce(m, batches[k], now);
      now := AfterBatch(now, batches[k]);
    }
  }

  /**
   * Over every run the objects and maps of the pool are what the events make of them, step by step, from the
   * connections that were built: one, idle, for each connect that succeeded. Every object is in one place at the end,
   * and the pool is as it is meant to be at every moment if and only if no event was stale.
   */
  method RunChild(open: set<int>, wishes: seq<int>, batches: seq<Batch>)
    returns (m: Mgr, ghost cs: seq<Conn>, ghost start: World)
    requires forall fd | fd in open :: fd >= 0
    ensures IsStart(start.pool, open, Connected(open, wishes), cs) && start.links == NewLinks(cs)
    ensures WorldInv(start) && PoolInv(start.pool)
    ensures Shows(m, AfterRun(start, batches)) && m.Valid()
    ensures RunStaysIntact(start, batches) <==> RunHasNoneStale(start, batches)
  {
    m, cs, start := BuildStart(open, wishes);
    RunAll(m, batches, start);
    RunIntactIff(start, batches);
  }

  lemma TwoAreIdle(p: Pool, open: set<int>, fds: seq<int>, cs: seq<Conn>)
    requires IsStart(p, open, fds, cs) && |cs| >= 2
    ensures NonEmpty(p.conns.Keys) && NonEmpty(p.conns.Keys - {Least(p.conns.Keys)})
  {
    assert fds[0] in p.conns.Keys && fds[1] in p.conns.Keys && fds[0] != fds[1];
    var other := if fds[0] == Least(p.conns.Keys) then fds[1] else fds[0];
    assert other in p.conns.Keys - {Least(p.conns.Keys)};
  }

  /** With two connections built, two batches are enough to leave a client unserved for ever. */
  lemma ChildCanHideClient(start: World, open: set<int>, wishes: seq<int>, cs: seq<Conn>, a: int, later: seq<Batch>)
    returns (d: Conn)
    requires IsStart(start.pool, open, Connected(open, wishes), cs) && |cs| >= 2
    requires WorldInv(start) && PoolInv(start.pool) && a >= 0 && a !in start.pool.open
    ensures NonEmpty(start.pool.conns.Keys)
    ensures var fd := Least(start.pool.conns.Keys);
            var w := AfterRun(start, Hiding(a, fd) + later);
            && IsHidden(w.pool, d, fd)
            && d in w.links && w.links[d].up.received == w.links[d].down.sent == ""
  {
    TwoAreIdle(start.pool, open, Connected(open, wishes), cs);
    d := RunHidesClient(start, a, later);
  }
}
