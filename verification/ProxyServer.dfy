/** Class `mgr` of springsnail on its maps, and a child process that dispatches to it. */
module ProxyServer {
  import opened ProxyConn
  import opened ProxyPool
  import opened Sockets

  // ----- What an event does to one busy connection

  /** The two directions of a connection and whether its server is gone. */
  datatype Link = Link(up: Flow, down: Flow, srvClosed: bool)

  const NEW_LINK := Link(EMPTY, EMPTY, false)

  ghost predicate LinkInv(l: Link) {
    FlowInv(l.up) && FlowInv(l.down)
  }

  /** What the call of `read_clt`, `write_clt`, `read_srv` or `write_srv` returns; other operations call none. */
  ghost function Code(l: Link, isClt: bool, op: OpType, recvs: seq<RecvAnswer>, sends: seq<SendAnswer>): (code: RetCode)
    requires LinkInv(l)
  {
    match op
    case READ =>
      if isClt then ReadCode(Pending(l.up), l.up.room, recvs) else ReadCode(Pending(l.down), l.down.room, recvs)
    case WRITE => if isClt then WriteCode(Pending(l.down), sends) else WriteCode(Pending(l.up), sends)
    case ERROR => Nothing
  }

  predicate Fails(code: RetCode) {
    code.IoErr? || code.Closed?
  }

  /** The `recv` or `send` of the call meets an error or the end before the buffer is full or empty. */
  ghost predicate MeetsFailure(l: Link, isClt: bool, op: OpType, recvs: seq<RecvAnswer>, sends: seq<SendAnswer>) {
    match op
    case READ => RecvFails(recvs, if isClt then l.up.room else l.down.room)
    case WRITE => SendFails(sends, |Pending(if isClt then l.down else l.up)|)
    case ERROR => false
  }

  lemma FailsIff(l: Link, isClt: bool, op: OpType, recvs: seq<RecvAnswer>, sends: seq<SendAnswer>)
    requires LinkInv(l)
    ensures Fails(Code(l, isClt, op, recvs, sends)) <==> MeetsFailure(l, isClt, op, recvs, sends)
  {
    RecvFailsIff(recvs, if isClt then l.up.room else l.down.room);
    SendFailsIff(sends, |Pending(if isClt then l.down else l.up)|);
  }

  /** The client's own failure frees the connection, and so does any of its events once the server is gone. */
  predicate Frees(l: Link, isClt: bool, op: OpType, code: RetCode) {
    isClt && !op.ERROR? && (Fails(code) || l.srvClosed)
  }

  /** The call alone: which bytes move. */
  ghost function Moved(l: Link, isClt: bool, op: OpType, recvs: seq<RecvAnswer>, sends: seq<SendAnswer>): (l': Link)
    requires LinkInv(l)
    ensures LinkInv(l')
  {
    ReadKeepsInv(l.up, recvs);
    ReadKeepsInv(l.down, recvs);
    WriteKeepsInv(l.up, sends);
    WriteKeepsInv(l.down, sends);
    match op
    case READ => if isClt then l.(up := AfterRead(l.up, recvs)) else l.(down := AfterRead(l.down, recvs))
    case WRITE => if isClt then l.(down := AfterWrite(l.down, sends)) else l.(up := AfterWrite(l.up, sends))
    case ERROR => l
  }

  /** A failure at the server's end is remembered. */
  ghost function NextLink(l: Link, isClt: bool, op: OpType, recvs: seq<RecvAnswer>, sends: seq<SendAnswer>): (l': Link)
    requires LinkInv(l)
  {
    var gone := !isClt && Fails(Code(l, isClt, op, recvs, sends));
    Moved(l, isClt, op, recvs, sends).(srvClosed := l.srvClosed || gone)
  }

  /** `modfd` for the descriptors of one connection; `own` had the event. */
  function Rearmed(epoll: map<int, Interest>, own: int, peer: int, isClt: bool, op: OpType, code: RetCode)
    : (epoll': map<int, Interest>)
  {
    if op.READ? && (code.Ok? || code.BufferFull?) then epoll[peer := EPOLLOUT]
    else if op.WRITE? && code.TryAgain? then epoll[own := EPOLLOUT]
    else if op.WRITE? && code.BufferEmpty? then epoll[peer := EPOLLIN][own := EPOLLIN]
    else if !op.ERROR? && !isClt && Fails(code) then epoll[peer := EPOLLOUT]
    else epoll
  }

  lemma ReadIsPending(f: Flow, recvs: seq<RecvAnswer>)
    requires FlowInv(f)
    ensures var code := ReadCode(Pending(f), f.room, recvs);
            !Fails(code) ==>
              if code.Ok? || code.BufferFull? then Pending(AfterRead(f, recvs)) != ""
              else Pending(AfterRead(f, recvs)) == ""
  {
    var n := Min(|Offered(recvs)|, f.room);
    assert Pending(AfterRead(f, recvs)) == Pending(f) + Offered(recvs)[..n];
  }

  lemma WriteLeavesPending(f: Flow, sends: seq<SendAnswer>)
    requires FlowInv(f)
    ensures var code := WriteCode(Pending(f), sends);
            !Fails(code) ==>
              if code.BufferEmpty? then Pending(AfterWrite(f, sends)) == ""
              else code.TryAgain? && Pending(AfterWrite(f, sends)) != ""
  {
    assert |Pending(AfterWrite(f, sends))| == |Pending(f)| - Min(|Pending(f)|, Demand(sends));
  }

  /**
   * An event moves bytes of one direction only: a READ receives from the end that has the event what its answers give,
   * and a WRITE sends to that end what its answers take.
   */
  lemma BytesMove(l: Link, isClt: bool, op: OpType, recvs: seq<RecvAnswer>, sends: seq<SendAnswer>) returns (j: nat)
    requires LinkInv(l)
    ensures var l' := NextLink(l, isClt, op, recvs, sends);
            && (op.READ? && isClt ==> Receives(l.up, l'.up, recvs, j) && l'.down == l.down)
            && (op.READ? && !isClt ==> Receives(l.down, l'.down, recvs, j) && l'.up == l.up)
            && (op.WRITE? && isClt ==> Sends(l.down, l'.down, sends, j) && l'.up == l.up)
            && (op.WRITE? && !isClt ==> Sends(l.up, l'.up, sends, j) && l'.down == l.down)
            && (op.ERROR? ==> l'.up == l.up && l'.down == l.down)
  {
    if op.READ? {
      j := ReadReceives(if isClt then l.up else l.down, recvs);
    } else if op.WRITE? {
      j := WriteSends(if isClt then l.down else l.up, sends);
    } else {
      j := 0;
    }
  }

  /** Behind a read that does not fail, the other end is armed for output if bytes are pending for it. */
  lemma ReadIsArmed(l: Link, isClt: bool, recvs: seq<RecvAnswer>, sends: seq<SendAnswer>,
                    epoll: map<int, Interest>, own: int, peer: int)
    requires LinkInv(l) && !MeetsFailure(l, isClt, READ, recvs, sends)
    ensures var l' := NextLink(l, isClt, READ, recvs, sends);
            Rearmed(epoll, own, peer, isClt, READ, Code(l, isClt, READ, recvs, sends))
              == if Pending(if isClt then l'.up else l'.down) != "" then epoll[peer := EPOLLOUT] else epoll
  {
    FailsIff(l, isClt, READ, recvs, sends);
    ReadIsPending(if isClt then l.up else l.down, recvs);
  }

  /** Behind such a write, that end is for output as long as bytes are pending; and both ends are for input then. */
  lemma WriteIsArmed(l: Link, isClt: bool, recvs: seq<RecvAnswer>, sends: seq<SendAnswer>,
                     epoll: map<int, Interest>, own: int, peer: int)
    requires LinkInv(l) && !MeetsFailure(l, isClt, WRITE, recvs, sends)
    ensures var l' := NextLink(l, isClt, WRITE, recvs, sends);
            Rearmed(epoll, own, peer, isClt, WRITE, Code(l, isClt, WRITE, recvs, sends))
              == if Pending(if isClt then l'.down else l'.up) != "" then epoll[own := EPOLLOUT]
                 else epoll[peer := EPOLLIN][own := EPOLLIN]
  {
    FailsIff(l, isClt, WRITE, recvs, sends);
    WriteLeavesPending(if isClt then l.down else l.up, sends);
  }

  /** When the server fails, the end of its client is armed for output. Other operations change nothing. */
  lemma FailureIsArmed(l: Link, isClt: bool, op: OpType, recvs: seq<RecvAnswer>, sends: seq<SendAnswer>,
                       epoll: map<int, Interest>, own: int, peer: int)
    requires LinkInv(l) && (op.ERROR? || (!isClt && MeetsFailure(l, false, op, recvs, sends)))
    ensures Rearmed(epoll, own, peer, isClt, op, Code(l, isClt, op, recvs, sends))
         == if op.ERROR? then epoll else epoll[peer := EPOLLOUT]
  {
    FailsIff(l, isClt, op, recvs, sends);
  }

  // ----- The heap of a pool

  ghost function View(c: Conn): (l': Link)
    requires c.cltReadIdx <= BUF_SIZE && c.srvReadIdx <= BUF_SIZE
    reads c
  {
    Link(c.Up(), c.Down(), c.srvClosed)
  }

  lemma ViewInv(c: Conn)
    requires c.Valid()
    ensures LinkInv(View(c))
  {
    c.PendingIsBuffered();
  }

  /** `l` is the view of `c`, field by field. */
  ghost predicate Holds(c: Conn, l: Link)
    reads c`fromClt, c`toSrv, c`cltReadIdx, c`fromSrv, c`toClt, c`srvReadIdx, c`srvClosed
  {
    && c.fromClt == l.up.received && c.toSrv == l.up.sent && c.cltReadIdx + l.up.room == BUF_SIZE
    && c.fromSrv == l.down.received && c.toClt == l.down.sent && c.srvReadIdx + l.down.room == BUF_SIZE
    && c.srvClosed == l.srvClosed
  }

  ghost predicate HoldAll(s: set<Conn>, links: map<Conn, Link>)
    reads s`fromClt, s`toSrv, s`cltReadIdx, s`fromSrv, s`toClt, s`srvReadIdx, s`srvClosed
  {
    s <= links.Keys && forall c | c in s :: Holds(c, links[c])
  }

  lemma HoldsItsView(c: Conn, l: Link)
    requires c.cltReadIdx <= BUF_SIZE && c.srvReadIdx <= BUF_SIZE
    ensures Holds(c, l) <==> View(c) == l
  {
  }

  lemma AlsoHolds(all: set<Conn>, links: map<Conn, Link>, c: Conn, l: Link)
    requires HoldAll(all - {c}, links) && c in all && c.Valid() && View(c) == l
    ensures HoldAll(all, links[c := l])
  {
    HoldsItsView(c, l);
  }

  /** Connections share no buffer. */
  ghost predicate Apart(s: set<Conn>) {
    forall c, d | c in s && d in s && c != d :: {c.cltBuf, c.srvBuf} !! {d.cltBuf, d.srvBuf}
  }

  /** A connection object is as recorded; and one that has no client holds no byte of an earlier one. */
  ghost predicate Intact(c: Conn, e: Entry)
    reads c, c.cltBuf, c.srvBuf
  {
    && c.cltfd == e.clt && c.srvfd == e.srv
    && c.Valid() && (e.place != Busy ==> View(c) == NEW_LINK)
  }

  function RearmedFor(p: Pool, c: Conn, isClt: bool, op: OpType, code: RetCode): (epoll': map<int, Interest>)
    requires c in p.made
  {
    var e := p.made[c];
    if isClt then Rearmed(p.epoll, e.clt, e.srv, isClt, op, code) else Rearmed(p.epoll, e.srv, e.clt, isClt, op, code)
  }

  /** The pool after an event of a busy connection, and what `process` returns. */
  ghost predicate Handled(p: Pool, l: Link, c: Conn, isClt: bool, op: OpType, recvs: seq<RecvAnswer>,
                          sends: seq<SendAnswer>, res: RetCode, p': Pool, l': Link)
    requires IsAt(p, c, Busy) && LinkInv(l)
  {
    var code := Code(l, isClt, op, recvs, sends);
    if Frees(l, isClt, op, code) then
      res.Closed? && p' == AfterFree(p, c) && l' == NEW_LINK
    else
      && res.Ok? && p' == p.(epoll := RearmedFor(p, c, isClt, op, code))
      && l' == NextLink(l, isClt, op, recvs, sends)
  }

  predicate Found(p: Pool, fd: int) {
    fd in p.used && p.used[fd] != null
  }

  /** The connection that `process` finds. */
  function UserOf(p: Pool, fd: int): (c: Conn)
    requires Found(p, fd)
  {
    p.used[fd]
  }

  /** What `process` does to the pool and to the bytes of all connections. */
  ghost predicate Processed(p: Pool, links: map<Conn, Link>, fd: int, op: OpType, recvs: seq<RecvAnswer>,
                            sends: seq<SendAnswer>, res: RetCode, p': Pool, links': map<Conn, Link>)
  {
    if !Found(p, fd) then res.Nothing? && p' == AfterLookUp(p, fd) && links' == links
    else
      var c := UserOf(p, fd);
      && Uses(p, c, fd) && c in links && c in links' && LinkInv(links[c]) && links' == links[c := links'[c]]
      && Handled(p, links[c], c, fd == p.made[c].clt, op, recvs, sends, res, p', links'[c])
  }

  lemma RearmedThenFreed(p: Pool, c: Conn, isClt: bool, op: OpType, code: RetCode)
    requires c in p.made
    ensures AfterFree(p.(epoll := RearmedFor(p, c, isClt, op, code)), c) == AfterFree(p, c)
  {
    var fds := {p.made[c].clt, p.made[c].srv};
    assert RearmedFor(p, c, isClt, op, code) - fds == p.epoll - fds;
  }

  lemma RearmingMovesNothing(p: Pool, epoll: map<int, Interest>)
    requires LaxInv(p) && epoll.Keys == p.epoll.Keys
    ensures LaxInv(p.(epoll := epoll))
  {
    var q := p.(epoll := epoll);
    assert forall c, fd :: Uses(q, c, fd) <==> Uses(p, c, fd);
    assert forall c, fd :: GoesBy(q, c, fd) <==> GoesBy(p, c, fd);
    assert forall c, place :: IsAt(q, c, place) <==> IsAt(p, c, place);
  }

  lemma RearmedKeepsInv(p: Pool, c: Conn, isClt: bool, op: OpType, code: RetCode)
    requires LaxInv(p) && IsAt(p, c, Busy)
    ensures LaxInv(p.(epoll := RearmedFor(p, c, isClt, op, code)))
  {
    var q := p.(epoll := RearmedFor(p, c, isClt, op, code));
    assert Uses(p, c, p.made[c].clt) && Uses(p, c, p.made[c].srv);
    assert q.epoll.Keys == p.epoll.Keys;
    RearmingMovesNothing(p, q.epoll);
  }

  lemma HandledKeepsInv(p: Pool, l: Link, c: Conn, isClt: bool, op: OpType, recvs: seq<RecvAnswer>,
                        sends: seq<SendAnswer>, res: RetCode, p': Pool, l': Link)
    requires LaxInv(p) && IsAt(p, c, Busy) && LinkInv(l)
    requires Handled(p, l, c, isClt, op, recvs, sends, res, p', l')
    ensures LaxInv(p') && p'.made.Keys == p.made.Keys && (PoolInv(p) ==> PoolInv(p'))
  {
    FreeKeepsInv(p, c);
    RearmedKeepsInv(p, c, isClt, op, Code(l, isClt, op, recvs, sends));
  }

  lemma BusyWithoutFreed(p: Pool, c: Conn)
    requires IsAt(p, c, Busy)
    ensures BusyConns(AfterFree(p, c)) == BusyConns(p) - {c}
  {
  }

  lemma BusyAfterRearming(p: Pool, epoll: map<int, Interest>)
    ensures BusyConns(p.(epoll := epoll)) == BusyConns(p)
  {
  }

  /** `process` returns CLOSED exactly when it freed the connection. */
  lemma ClosedMeansFreed(p: Pool, l: Link, c: Conn, isClt: bool, op: OpType, recvs: seq<RecvAnswer>,
                         sends: seq<SendAnswer>, res: RetCode, p': Pool, l': Link)
    requires PoolInv(p) && IsAt(p, c, Busy) && LinkInv(l)
    requires Handled(p, l, c, isClt, op, recvs, sends, res, p', l')
    ensures res.Closed? <==> IsAt(p', c, Freed)
    ensures |BusyConns(p')| == |BusyConns(p)| - if res.Closed? then 1 else 0
    ensures |p'.used| == |p.used| - if res.Closed? then 2 else 0
  {
    BusyWithoutFreed(p, c);
    BusyAfterRearming(p, p'.epoll);
    HandledKeepsInv(p, l, c, isClt, op, recvs, sends, res, p', l');
    UsedCount(p);
    UsedCount(p');
  }

  /**
   * A busy connection is freed exactly by an event of its client: if the call for it meets a failure, or if the server
   * has failed before. A failure of the server is remembered until then.
   */
  lemma FreedIff(p: Pool, l: Link, c: Conn, isClt: bool, op: OpType, recvs: seq<RecvAnswer>, sends: seq<SendAnswer>,
                 res: RetCode, p': Pool, l': Link)
    requires IsAt(p, c, Busy) && LinkInv(l) && Handled(p, l, c, isClt, op, recvs, sends, res, p', l')
    ensures var closes := isClt && !op.ERROR? && (MeetsFailure(l, true, op, recvs, sends) || l.srvClosed);
            && (closes <==> res.Closed?) && (closes <==> IsAt(p', c, Freed)) && (res.Closed? || res.Ok?)
            && (!closes ==>
                  && p'.made == p.made
                  && (l'.srvClosed <==> l.srvClosed || (!isClt && MeetsFailure(l, false, op, recvs, sends))))
  {
    FailsIff(l, isClt, op, recvs, sends);
  }

  /** The kernel's answer to `connect`. */
  method Connect(wish: int, open: set<int>) returns (sockfd: int)
    ensures sockfd == Sockfd(wish, open)
  {
    sockfd := Sockfd(wish, open);
  }

  /** `begin()` of a map. */
  method Begin(keys: set<int>) returns (first: bool, fd: int)
    ensures first <==> NonEmpty(keys)
    ensures first ==> fd == Least(keys)
  {
    first, fd := false, -1;
    if x :| x in keys {
      LeastExists(keys, x);
      fd :| fd in keys && forall j | j in keys :: fd <= j;
      first := true;
    }
  }

  lemma MovedByClient(l: Link, recvs: seq<RecvAnswer>, sends: seq<SendAnswer>)
    requires LinkInv(l)
    ensures Moved(l, true, READ, recvs, sends) == l.(up := AfterRead(l.up, recvs))
    ensures Moved(l, true, WRITE, recvs, sends) == l.(down := AfterWrite(l.down, sends))
    ensures Moved(l, true, ERROR, recvs, sends) == l
  {
  }

  lemma MovedByServer(l: Link, recvs: seq<RecvAnswer>, sends: seq<SendAnswer>)
    requires LinkInv(l)
    ensures Moved(l, false, READ, recvs, sends) == l.(down := AfterRead(l.down, recvs))
    ensures Moved(l, false, WRITE, recvs, sends) == l.(up := AfterWrite(l.up, sends))
    ensures Moved(l, false, ERROR, recvs, sends) == l
  {
  }

  /** The call for an event of the client. */
  method CallClt(c: Conn, op: OpType, recvs: seq<RecvAnswer>, sends: seq<SendAnswer>) returns (code: RetCode)
    requires c.Valid() && LinkInv(View(c))
    modifies c, c.cltBuf, c.srvBuf
    ensures c.Valid() && View(c) == Moved(old(View(c)), true, op, recvs, sends)
    ensures code == Code(old(View(c)), true, op, recvs, sends)
    ensures c.cltfd == old(c.cltfd) && c.srvfd == old(c.srvfd)
  {
    ghost var l := View(c);
    MovedByClient(l, recvs, sends);
    match op {
      case READ =>
        code := c.ReadClt(recvs);
        assert View(c) == l.(up := AfterRead(l.up, recvs));
      case WRITE =>
        var sent;
        code, sent := c.WriteClt(sends);
        assert View(c) == l.(down := AfterWrite(l.down, sends));
      case ERROR =>
        code := Nothing;
    }
  }

  /** The call for an event of the server. */
  method CallSrv(c: Conn, op: OpType, recvs: seq<RecvAnswer>, sends: seq<SendAnswer>) returns (code: RetCode)
    requires c.Valid() && LinkInv(View(c))
    modifies c, c.cltBuf, c.srvBuf
    ensures c.Valid() && View(c) == Moved(old(View(c)), false, op, recvs, sends)
    ensures code == Code(old(View(c)), false, op, recvs, sends)
    ensures c.cltfd == old(c.cltfd) && c.srvfd == old(c.srvfd)
  {
    ghost var l := View(c);
    MovedByServer(l, recvs, sends);
    match op {
      case READ =>
        code := c.ReadSrv(recvs);
        assert View(c) == l.(down := AfterRead(l.down, recvs));
      case WRITE =>
        var sent;
        code, sent := c.WriteSrv(sends);
        assert View(c) == l.(up := AfterWrite(l.up, sends));
      case ERROR =>
        code := Nothing;
    }
  }

  /** `new conn` and `init_srv`. */
  method NewConn(sockfd: int) returns (tmp: Conn)
    ensures fresh(tmp) && fresh(tmp.cltBuf) && fresh(tmp.srvBuf)
    ensures tmp.Valid() && View(tmp) == NEW_LINK && tmp.cltfd == -1 && tmp.srvfd == sockfd
  {
    tmp := new Conn();
    tmp.InitSrv(sockfd);
  }

  /** Where the loop of `recycle_conns` stands: `rest` is still to be done, and will lead to `q`. */
  ghost predicate Recycling(p: Pool, rest: set<int>, wishes: map<int, int>, q: Pool) {
    Waiting(p, rest) && Reconnected(p, rest, wishes) == q
  }

  lemma RecyclingEnds(p: Pool, rest: set<int>, wishes: map<int, int>, q: Pool)
    requires Recycling(p, rest, wishes, q) && !NonEmpty(rest)
    ensures p == q
  {
  }

  ghost function BuffersOf(s: set<Conn>): (objects: set<object>) {
    (set c | c in s :: c.cltBuf) + (set c | c in s :: c.srvBuf)
  }

  class Mgr {
    var conns: map<int, Conn>
    var used: map<int, Conn?>
    var freed: map<int, Conn>
    /** The kernel's side. */
    var open: set<int>
    var epoll: map<int, Interest>

    ghost var made: map<Conn, Entry>

    ghost function Abs(): (p': Pool)
      reads this
    {
      Pool(conns, used, freed, open, epoll, made)
    }

    ghost predicate Sound()
      reads this`made, made.Keys, set c | c in made :: c.cltBuf, set c | c in made :: c.srvBuf
    {
      Apart(made.Keys) && forall c | c in made :: Intact(c, made[c])
    }

    ghost predicate Valid()
      reads this, made.Keys, set c | c in made :: c.cltBuf, set c | c in made :: c.srvBuf
    {
      Sound() && LaxInv(Abs())
    }

    /** `reset()` of a connection that is about to be freed. */
    method Retire(connection: Conn)
      requires Sound() && connection in made
      modifies this`made, connection, connection.cltBuf, connection.srvBuf
      ensures Sound() && made == old(made)[connection := Entry(Freed, -1, old(made)[connection].srv)]
    {
      connection.Reset();
      made := made[connection := Entry(Freed, -1, connection.srvfd)];
      assert Intact(connection, made[connection]);
      forall c | c in made && c != connection ensures Intact(c, made[c]) {
        assert {c.cltBuf, c.srvBuf} !! {connection.cltBuf, connection.srvBuf};
        assert old(Intact(c, made[c]));
      }
    }

    method FreeConn(connection: Conn)
      requires Sound() && connection in made
      modifies this`used, this`freed, this`open, this`epoll, this`made
      modifies connection, connection.cltBuf, connection.srvBuf
      ensures Sound() && Abs() == AfterFree(old(Abs()), connection)
    {
      assert Intact(connection, made[connection]);
      var cltfd, srvfd := connection.cltfd, connection.srvfd;
      epoll, open := epoll - {cltfd, srvfd}, open - {cltfd, srvfd};
      used := used - {cltfd, srvfd};
      Retire(connection);
      freed := Insert(freed, srvfd, connection);
    }

    /** The call, for a connection of the pool. */
    method Transfer(connection: Conn, isClt: bool, op: OpType, recvs: seq<RecvAnswer>, sends: seq<SendAnswer>)
      returns (code: RetCode)
      requires Sound() && connection in made && made[connection].place == Busy && Intact(connection, made[connection])
      requires LinkInv(View(connection))
      modifies connection, connection.cltBuf, connection.srvBuf
      ensures Sound() && View(connection) == Moved(old(View(connection)), isClt, op, recvs, sends)
      ensures code == Code(old(View(connection)), isClt, op, recvs, sends)
    {
      if isClt {
        code := CallClt(connection, op, recvs, sends);
      } else {
        code := CallSrv(connection, op, recvs, sends);
      }
      forall c | c in made && c != connection ensures Intact(c, made[c]) {
        assert {c.cltBuf, c.srvBuf} !! {connection.cltBuf, connection.srvBuf};
        assert old(Intact(c, made[c]));
      }
    }

    /** The calls of `modfd` for the client's descriptor `fd`. */
    method ClientModfd(fd: int, srvfd: int, op: OpType, code: RetCode)
      modifies this`epoll
      ensures epoll == Rearmed(old(epoll), fd, srvfd, true, op, code)
    {
      match op {
        case READ =>
          if code.Ok? || code.BufferFull? {
            epoll := epoll[srvfd := EPOLLOUT];
          }
        case WRITE =>
          if code.TryAgain? {
            epoll := epoll[fd := EPOLLOUT];
          } else if code.BufferEmpty? {
            epoll := epoll[srvfd := EPOLLIN];
            epoll := epoll[fd := EPOLLIN];
          }
        case ERROR =>
      }
    }

    /** The calls of `modfd` for the server's descriptor `fd`. */
    method ServerModfd(fd: int, cltfd: int, op: OpType, code: RetCode)
      modifies this`epoll
      ensures epoll == Rearmed(old(epoll), fd, cltfd, false, op, code)
    {
      match op {
        case READ =>
          if code.Ok? || code.BufferFull? || code.IoErr? || code.Closed? {
            epoll := epoll[cltfd := EPOLLOUT];
          }
        case WRITE =>
          if code.TryAgain? {
            epoll := epoll[fd := EPOLLOUT];
          } else if code.BufferEmpty? {
            epoll := epoll[cltfd := EPOLLIN];
            epoll := epoll[fd := EPOLLIN];
          } else if code.IoErr? || code.Closed? {
            epoll := epoll[cltfd := EPOLLOUT];
          }
        case ERROR =>
      }
    }

    /** The call and the `modfd`s for an event of the client. */
    method ClientCall(connection: Conn, op: OpType, recvs: seq<RecvAnswer>, sends: seq<SendAnswer>)
      returns (code: RetCode)
      requires Sound() && connection in made && made[connection].place == Busy
      requires Intact(connection, made[connection]) && LinkInv(View(connection))
      modifies this`epoll, connection, connection.cltBuf, connection.srvBuf
      ensures Sound() && View(connection) == Moved(old(View(connection)), true, op, recvs, sends)
      ensures code == Code(old(View(connection)), true, op, recvs, sends)
      ensures Abs() == old(Abs()).(epoll := RearmedFor(old(Abs()), connection, true, op, code))
    {
      code := Transfer(connection, true, op, recvs, sends);
      assert Intact(connection, made[connection]);
      ClientModfd(connection.cltfd, connection.srvfd, op, code);
    }

    /** `free_conn` behind the `modfd`s: the pool is as if they had not been. */
    method FreeRearmed(connection: Conn, ghost p: Pool, ghost isClt: bool, ghost op: OpType, ghost code: RetCode)
      requires Sound() && connection in made && connection in p.made
      requires Abs() == p.(epoll := RearmedFor(p, connection, isClt, op, code))
      modifies this`used, this`freed, this`open, this`epoll, this`made
      modifies connection, connection.cltBuf, connection.srvBuf
      ensures Sound() && Abs() == AfterFree(p, connection) && connection.Valid() && View(connection) == NEW_LINK
    {
      RearmedThenFreed(p, connection, isClt, op, code);
      FreeConn(connection);
      assert Intact(connection, made[connection]);
    }

    /** `process` for the client's descriptor. */
    method ClientEvent(connection: Conn, op: OpType, recvs: seq<RecvAnswer>, sends: seq<SendAnswer>)
      returns (res: RetCode)
      requires Sound() && connection in made && made[connection].place == Busy
      requires Intact(connection, made[connection]) && LinkInv(View(connection))
      modifies this`used, this`freed, this`open, this`epoll, this`made
      modifies connection, connection.cltBuf, connection.srvBuf
      ensures Sound() && connection.Valid()
      ensures Handled(old(Abs()), old(View(connection)), connection, true, op, recvs, sends, res, Abs(),
                      View(connection))
    {
      ghost var p := Abs();
      var code := ClientCall(connection, op, recvs, sends);
      if !op.ERROR? && (code.IoErr? || code.Closed? || connection.srvClosed) {
        FreeRearmed(connection, p, true, op, code);
        return Closed;
      }
      assert Intact(connection, made[connection]);
      return Ok;
    }

    method SetSrvClosed(connection: Conn)
      requires Sound() && connection in made && made[connection].place == Busy
      modifies connection`srvClosed
      ensures Sound() && connection.Valid() && View(connection) == old(View(connection)).(srvClosed := true)
    {
      assert Intact(connection, made[connection]);
      connection.srvClosed := true;
      assert Intact(connection, made[connection]);
      forall c | c in made && c != connection ensures Intact(c, made[c]) {
        assert old(Intact(c, made[c]));
      }
    }

    /** The call and the `modfd`s for an event of the server. */
    method ServerCall(connection: Conn, op: OpType, recvs: seq<RecvAnswer>, sends: seq<SendAnswer>)
      returns (code: RetCode)
      requires Sound() && connection in made && made[connection].place == Busy
      requires Intact(connection, made[connection]) && LinkInv(View(connection))
      modifies this`epoll, connection, connection.cltBuf, connection.srvBuf
      ensures Sound() && View(connection) == Moved(old(View(connection)), false, op, recvs, sends)
      ensures code == Code(old(View(connection)), false, op, recvs, sends)
      ensures Abs() == old(Abs()).(epoll := RearmedFor(old(Abs()), connection, false, op, code))
    {
      code := Transfer(connection, false, op, recvs, sends);
      assert Intact(connection, made[connection]);
      ServerModfd(connection.srvfd, connection.cltfd, op, code);
    }

    /** `process` for the server's descriptor. */
    method ServerEvent(connection: Conn, op: OpType, recvs: seq<RecvAnswer>, sends: seq<SendAnswer>)
      returns (res: RetCode)
      requires Sound() && connection in made && made[connection].place == Busy
      requires Intact(connection, made[connection]) && LinkInv(View(connection))
      modifies this`used, this`freed, this`open, this`epoll, this`made
      modifies connection, connection.cltBuf, connection.srvBuf
      ensures Sound() && connection.Valid()
      ensures Handled(old(Abs()), old(View(connection)), connection, false, op, recvs, sends, res, Abs(),
                      View(connection))
    {
      var code := ServerCall(connection, op, recvs, sends);
      assert Intact(connection, made[connection]);
      if code.IoErr? || code.Closed? {
        SetSrvClosed(connection);
      }
      return Ok;
    }

    /** The pool before its constructor's loop; `open` are the descriptors the process has open already. */
    constructor (open: set<int>)
      requires forall fd | fd in open :: fd >= 0
      ensures Valid() && Abs() == Pool(map[], map[], map[], open, map[], map[])
    {
      conns, used, freed, epoll, made := map[], map[], map[], map[], map[];
      this.open := open;
    }

    /** A new connection object joins the pool. */
    method Join(tmp: Conn, sockfd: int)
      requires Sound() && tmp !in made && tmp.Valid() && View(tmp) == NEW_LINK && tmp.cltfd == -1 && tmp.srvfd == sockfd
      requires forall c | c in made :: {c.cltBuf, c.srvBuf} !! {tmp.cltBuf, tmp.srvBuf}
      modifies this`conns, this`open, this`made
      ensures Sound() && Abs() == AfterMake(old(Abs()), tmp, sockfd)
    {
      open := open + {sockfd};
      conns := Insert(conns, sockfd, tmp);
      made := made[tmp := Entry(Idle, -1, sockfd)];
      assert Intact(tmp, made[tmp]);
      forall d | d in made && d != tmp ensures Intact(d, made[d]) {
        assert old(Intact(d, made[d]));
      }
    }

    method NewApart(sockfd: int) returns (tmp: Conn)
      requires Sound()
      ensures Sound() && fresh(tmp) && fresh(tmp.cltBuf) && fresh(tmp.srvBuf) && tmp !in made
      ensures tmp.Valid() && View(tmp) == NEW_LINK && tmp.cltfd == -1 && tmp.srvfd == sockfd
      ensures forall c | c in made :: {c.cltBuf, c.srvBuf} !! {tmp.cltBuf, tmp.srvBuf}
    {
      tmp := NewConn(sockfd);
    }

    /** One turn of the loop in the constructor. */
    method Build(wish: int) returns (tmp: Conn?)
      requires Sound() && PoolInv(Abs()) && freed == map[]
      modifies this`conns, this`open, this`made
      ensures Sound() && PoolInv(Abs()) && (tmp != null <==> Sockfd(wish, old(open)) >= 0)
      ensures tmp == null ==> Abs() == old(Abs())
      ensures tmp != null ==> fresh(tmp) && fresh(tmp.cltBuf) && fresh(tmp.srvBuf) && tmp !in old(made)
      ensures tmp != null ==> tmp.Valid() && View(tmp) == NEW_LINK && Abs() == AfterMake(old(Abs()), tmp, wish)
    {
      var sockfd := Connect(wish, open);
      if sockfd < 0 {
        return null;
      }
      ghost var p := Abs();
      tmp := NewApart(sockfd);
      Join(tmp, sockfd);
      MakeKeepsInv(p, tmp, sockfd);
    }

    /** The connection that `fd` belongs to, with its buffers. */
    ghost function Owned(fd: int): (objects: set<object>)
      reads this`used
    {
      if fd in used && used[fd] != null then {used[fd], used[fd].cltBuf, used[fd].srvBuf} else {}
    }

    /** Whether `process` will find a connection. */
    predicate Finds(fd: int)
      reads this`used
    {
      fd in used && used[fd] != null
    }

    /** What it finds is a busy connection that uses `fd`. */
    ghost predicate FindsUser(fd: int)
      reads this
    {
      Finds(fd) ==> used[fd] in made && Uses(Abs(), used[fd], fd)
    }

    /** `m_used[ fd ]` */
    method LookUp(fd: int) returns (connection: Conn?)
      modifies this`used
      ensures Abs() == AfterLookUp(old(Abs()), fd) && fd in used && connection == used[fd]
      ensures (connection != null <==> old(Finds(fd))) && (connection != null ==> used == old(used))
    {
      if fd !in used {
        used := used[fd := null];
      }
      connection := used[fd];
    }

    /** `process` behind the look-up. */
    method ProcessFound(fd: int, connection: Conn, op: OpType, recvs: seq<RecvAnswer>, sends: seq<SendAnswer>)
      returns (res: RetCode)
      requires Sound() && connection in made && made[connection].place == Busy
      requires Intact(connection, made[connection]) && LinkInv(View(connection))
      requires fd == connection.cltfd || fd == connection.srvfd
      modifies this`used, this`freed, this`open, this`epoll, this`made
      modifies connection, connection.cltBuf, connection.srvBuf
      ensures Sound() && connection.Valid()
      ensures Handled(old(Abs()), old(View(connection)), connection, fd == old(connection.cltfd), op, recvs, sends, res,
                      Abs(), View(connection))
    {
      if connection.cltfd == fd {
        res := ClientEvent(connection, op, recvs, sends);
      } else if connection.srvfd == fd {
        res := ServerEvent(connection, op, recvs, sends);
      } else {
        return Nothing;
      }
    }

    /** Only `connection` is written to. */
    method ProcessApart(fd: int, connection: Conn, op: OpType, recvs: seq<RecvAnswer>, sends: seq<SendAnswer>,
                        ghost others: set<Conn>, ghost links: map<Conn, Link>)
      returns (res: RetCode)
      requires Sound() && connection in made && made[connection].place == Busy
      requires Intact(connection, made[connection]) && LinkInv(View(connection))
      requires fd == connection.cltfd || fd == connection.srvfd
      requires connection !in others && HoldAll(others, links)
      modifies this`used, this`freed, this`open, this`epoll, this`made
      modifies connection, connection.cltBuf, connection.srvBuf
      ensures Sound() && connection.Valid() && HoldAll(others, links)
      ensures Handled(old(Abs()), old(View(connection)), connection, fd == old(connection.cltfd), op, recvs, sends, res,
                      Abs(), View(connection))
    {
      res := ProcessFound(fd, connection, op, recvs, sends);
    }

    /** `process` for a descriptor of the busy connection `connection`; `links` are the bytes of all. */
    method ProcessOwned(fd: int, connection: Conn, op: OpType, recvs: seq<RecvAnswer>, sends: seq<SendAnswer>,
                        ghost all: set<Conn>, ghost links: map<Conn, Link>)
      returns (res: RetCode)
      requires Sound() && connection in made && made[connection].place == Busy
      requires Intact(connection, made[connection]) && LinkInv(View(connection))
      requires fd == connection.cltfd || fd == connection.srvfd
      requires connection in all && HoldAll(all, links)
      modifies this`used, this`freed, this`open, this`epoll, this`made
      modifies connection, connection.cltBuf, connection.srvBuf
      ensures Sound() && connection.Valid() && HoldAll(all, links[connection := View(connection)])
      ensures Handled(old(Abs()), old(View(connection)), connection, fd == old(connection.cltfd), op, recvs, sends, res,
                      Abs(), View(connection))
    {
      res := ProcessApart(fd, connection, op, recvs, sends, all - {connection}, links);
      AlsoHolds(all, links, connection, View(connection));
    }

    lemma BytesOf(connection: Conn, links: map<Conn, Link>)
      requires Sound() && HoldAll(made.Keys, links) && connection in made
      ensures Intact(connection, made[connection])
      ensures LinkInv(links[connection]) && View(connection) == links[connection]
    {
      assert Intact(connection, made[connection]);
      ViewInv(connection);
      HoldsItsView(connection, links[connection]);
    }

    /** `process`, for any pool that finds the right connection; `links` are the bytes of all connections. */
    method ProcessEvent(fd: int, op: OpType, recvs: seq<RecvAnswer>, sends: seq<SendAnswer>,
                        ghost links: map<Conn, Link>)
      returns (res: RetCode)
      requires Sound() && FindsUser(fd) && HoldAll(made.Keys, links)
      modifies this`used, this`freed, this`open, this`epoll, this`made, Owned(fd)
      ensures Sound() && made.Keys == old(made.Keys)
      ensures !old(Finds(fd)) ==>
                res.Nothing? && Abs() == AfterLookUp(old(Abs()), fd) && HoldAll(made.Keys, links)
      ensures old(Finds(fd)) ==>
                var c := old(used[fd]);
                && c.Valid() && LinkInv(links[c]) && HoldAll(made.Keys, links[c := View(c)])
                && Handled(old(Abs()), links[c], c, fd == old(made)[c].clt, op, recvs, sends, res, Abs(), View(c))
    {
      var connection := LookUp(fd);
      if connection == null {
        return Nothing;
      }
      BytesOf(connection, links);
      res := ProcessOwned(fd, connection, op, recvs, sends, made.Keys, links);
    }

    lemma FindsItsUser(fd: int)
      requires Valid()
      ensures FindsUser(fd) && LaxInv(AfterLookUp(Abs(), fd))
      ensures PoolInv(Abs()) ==> (PoolInv(AfterLookUp(Abs(), fd)) <==> fd in used) && (Finds(fd) <==> fd in used)
    {
      LookUpKeepsLax(Abs(), fd);
      if PoolInv(Abs()) {
        LookUpKeepsInvIff(Abs(), fd);
      }
    }

    lemma OwnedIsMade(fd: int)
      requires Valid()
      ensures Owned(fd) <= made.Keys + BuffersOf(made.Keys)
    {
      FindsItsUser(fd);
    }

    /**
     * For any descriptor and operation; `links` are the bytes of all connections. In a pool that is as it is meant to
     * be, the descriptors that keep it so are exactly those in use.
     */
    method Process(fd: int, op: OpType, recvs: seq<RecvAnswer>, sends: seq<SendAnswer>, ghost links: map<Conn, Link>)
      returns (res: RetCode, ghost links': map<Conn, Link>)
      requires Valid() && HoldAll(made.Keys, links)
      modifies this`used, this`freed, this`open, this`epoll, this`made, Owned(fd)
      ensures Valid() && made.Keys == old(made.Keys) && HoldAll(made.Keys, links')
      ensures Processed(old(Abs()), links, fd, op, recvs, sends, res, Abs(), links')
      ensures old(PoolInv(Abs())) ==> (PoolInv(Abs()) <==> fd in old(used))
      ensures old(Finds(fd)) ==>
                var c := old(used[fd]);
                && IsAt(old(Abs()), c, Busy) && (res.Closed? <==> IsAt(Abs(), c, Freed))
                && (res.Closed? <==>
                      && fd == old(made)[c].clt && !op.ERROR?
                      && (MeetsFailure(links[c], true, op, recvs, sends) || links[c].srvClosed))
    {
      ghost var p := Abs();
      FindsItsUser(fd);
      links' := links;
      if Finds(fd) {
        ghost var c := used[fd];
        res := ProcessEvent(fd, op, recvs, sends, links);
        HandledKeepsInv(p, links[c], c, fd == p.made[c].clt, op, recvs, sends, res, Abs(), View(c));
        FreedIff(p, links[c], c, fd == p.made[c].clt, op, recvs, sends, res, Abs(), View(c));
        links' := links[c := View(c)];
      } else {
        res := ProcessEvent(fd, op, recvs, sends, links);
      }
    }

    /** What the child tells its parent. */
    method GetUsedConnCnt() returns (n: nat)
      requires Valid()
      ensures n == |used| && (PoolInv(Abs()) ==> n == 2 * |BusyConns(Abs())|)
    {
      if PoolInv(Abs()) {
        UsedCount(Abs());
      }
      n := |used|;
    }

    /** `pick_conn`; the caller has put `cltfd` into the epoll set already. */
    method PickConn(cltfd: int) returns (c: Conn?)
      modifies this`conns, this`used, this`epoll
      ensures c != null <==> NonEmpty(old(conns).Keys)
      ensures c == null ==> Abs() == old(Abs())
      ensures c != null ==>
                var srvfd := Least(old(conns).Keys);
                && c == old(conns)[srvfd] && conns == old(conns) - {srvfd}
                && used == Insert(Insert(old(used), cltfd, c), srvfd, c)
                && epoll == Insert(Insert(old(epoll), cltfd, EPOLLIN), srvfd, EPOLLIN)
    {
      var first, srvfd := Begin(conns.Keys);
      if !first {
        return null;
      }
      c := conns[srvfd];
      conns := conns - {srvfd};
      used := Insert(used, cltfd, c);
      used := Insert(used, srvfd, c);
      epoll := Insert(epoll, cltfd, EPOLLIN);
      epoll := Insert(epoll, srvfd, EPOLLIN);
    }

    /** The connection that is next to be picked. */
    ghost function Next(): (conns: set<Conn>)
      reads this`conns
    {
      if NonEmpty(conns.Keys) then {conns[Least(conns.Keys)]} else {}
    }

    /** `init_clt` of the connection that was picked. */
    method InitClt(c: Conn, connfd: int, ghost all: set<Conn>, ghost links: map<Conn, Link>)
      requires Sound() && HoldAll(all, links) && c in made && Intact(c, made[c]) && View(c) == NEW_LINK
      modifies this`made, c`cltfd
      ensures Sound() && HoldAll(all, links) && made.Keys == old(made.Keys)
      ensures made == old(made)[c := Entry(Busy, connfd, old(made)[c].srv)]
    {
      c.InitClt(connfd);
      made := made[c := Entry(Busy, connfd, made[c].srv)];
      assert Intact(c, made[c]);
      forall d | d in made && d != c ensures Intact(d, made[d]) {
        assert old(Intact(d, made[d]));
      }
    }

    /** `accept`, and `pick_conn` for the descriptor; which is closed again if there is none to pick. */
    method Bind(connfd: int) returns (c: Conn?)
      requires connfd !in open && connfd !in epoll
      modifies this`conns, this`used, this`epoll, this`open
      ensures c != null <==> NonEmpty(old(conns).Keys)
      ensures c == null ==> Abs() == old(Abs())
      ensures c != null ==>
                c == old(conns)[Least(old(conns).Keys)] && Abs() == AfterPick(old(Abs()), connfd).(made := made)
    {
      ghost var p := Abs();
      open := open + {connfd};
      epoll := Insert(epoll, connfd, EPOLLIN);
      c := PickConn(connfd);
      if c == null {
        epoll, open := epoll - {connfd}, open - {connfd};
        assert epoll == p.epoll && open == p.open;
      } else {
        assert Insert(Insert(p.epoll, connfd, EPOLLIN), connfd, EPOLLIN) == Insert(p.epoll, connfd, EPOLLIN);
      }
    }

    /** The connection that is next to be picked is recorded as such, and carries nothing of an earlier client. */
    ghost predicate NextIsNew()
      reads this, made.Keys, set c | c in made :: c.cltBuf, set c | c in made :: c.srvBuf
    {
      NonEmpty(conns.Keys) ==>
        var c := conns[Least(conns.Keys)];
        c in made && Intact(c, made[c]) && View(c) == NEW_LINK && made[c].srv == Least(conns.Keys)
    }

    lemma PickedIsNew()
      requires Valid()
      ensures NextIsNew()
    {
      if NonEmpty(conns.Keys) {
        var c := conns[Least(conns.Keys)];
        assert IsAt(Abs(), c, Idle);
        assert Intact(c, made[c]);
      }
    }

    method InitPicked(c: Conn, connfd: int, ghost p: Pool, ghost all: set<Conn>, ghost links: map<Conn, Link>)
      requires Sound() && HoldAll(all, links) && c in made && Intact(c, made[c]) && View(c) == NEW_LINK
      requires NonEmpty(p.conns.Keys) && c == p.conns[Least(p.conns.Keys)] && made[c].srv == Least(p.conns.Keys)
      requires made == p.made && Abs() == AfterPick(p, connfd).(made := p.made)
      modifies this`made, c`cltfd
      ensures Sound() && HoldAll(all, links) && made.Keys == old(made.Keys) && Abs() == AfterPick(p, connfd)
    {
      InitClt(c, connfd, all, links);
    }

    /** The branch of the child process that accepts a client. */
    method BindAndInit(connfd: int, ghost all: set<Conn>, ghost links: map<Conn, Link>) returns (c: Conn?)
      requires Sound() && HoldAll(all, links) && NextIsNew() && connfd !in open && connfd !in epoll
      modifies this`conns, this`used, this`epoll, this`open, this`made, Next()`cltfd
      ensures Sound() && HoldAll(all, links) && (c != null <==> NonEmpty(old(conns).Keys))
      ensures made.Keys == old(made.Keys)
      ensures Abs() == if c == null then old(Abs()) else AfterPick(old(Abs()), connfd)
    {
      ghost var p := Abs();
      c := Bind(connfd);
      if c != null {
        InitPicked(c, connfd, p, all, links);
      }
    }

    /** The same, for a valid pool. */
    method Accept(connfd: int, ghost all: set<Conn>, ghost links: map<Conn, Link>) returns (c: Conn?)
      requires Valid() && HoldAll(all, links) && connfd >= 0 && connfd !in open
      modifies this`conns, this`used, this`epoll, this`open, this`made, Next()`cltfd
      ensures Valid() && HoldAll(all, links) && (c != null <==> NonEmpty(old(conns).Keys))
      ensures made.Keys == old(made.Keys) && (old(PoolInv(Abs())) ==> PoolInv(Abs()))
      ensures Abs() == if c == null then old(Abs()) else AfterPick(old(Abs()), connfd)
    {
      WatchedIsOpen(Abs());
      PickedIsNew();
      if NonEmpty(conns.Keys) {
        PickKeepsInv(Abs(), connfd);
      }
      c := BindAndInit(connfd, all, links);
    }

    /** The reconnect succeeded. */
    method Reuse(tmp: Conn, srvfd: int)
      requires Sound() && tmp in made && made[tmp].place == Freed && srvfd >= 0
      modifies this`conns, this`open, this`made, tmp`srvfd
      ensures Sound() && Abs() == AfterReconnect(old(Abs()), tmp, srvfd)
    {
      assert Intact(tmp, made[tmp]);
      open := open + {srvfd};
      tmp.InitSrv(srvfd);
      conns := Insert(conns, srvfd, tmp);
      made := made[tmp := Entry(Idle, made[tmp].clt, srvfd)];
      assert Intact(tmp, made[tmp]);
      forall d | d in made && d != tmp ensures Intact(d, made[d]) {
        assert old(Intact(d, made[d]));
      }
    }

    /** The reconnect failed: nobody keeps the object. */
    ghost method Drop(tmp: Conn, srvfd: int)
      requires Sound() && tmp in made && made[tmp].place == Freed && srvfd < 0
      modifies this`made
      ensures Sound() && Abs() == AfterReconnect(old(Abs()), tmp, srvfd)
    {
      assert Intact(tmp, made[tmp]);
      made := made[tmp := made[tmp].(place := Dropped)];
    }

    /** One turn of the loop of `recycle_conns`. */
    method Reconnect(tmp: Conn, wish: int, ghost all: set<Conn>, ghost links: map<Conn, Link>)
      requires Sound() && HoldAll(all, links) && tmp in made && made[tmp].place == Freed
      modifies this`conns, this`open, this`made, tmp`srvfd
      ensures Sound() && HoldAll(all, links) && Abs() == AfterReconnect(old(Abs()), tmp, Sockfd(wish, old(open)))
    {
      var srvfd := Connect(wish, open);
      if srvfd < 0 {
        Drop(tmp, srvfd);
      } else {
        Reuse(tmp, srvfd);
      }
    }

    /** One turn of the loop, unless it is at the end. */
    method RecycleNext(rest: set<int>, wishes: map<int, int>, ghost q: Pool, ghost all: set<Conn>,
                       ghost links: map<Conn, Link>)
      returns (more: bool, rest': set<int>)
      requires Sound() && HoldAll(all, links) && Recycling(Abs(), rest, wishes, q)
      modifies this`conns, this`open, this`made, (set key: int | key in freed :: freed[key])`srvfd
      ensures Sound() && HoldAll(all, links)
      ensures if more then rest' < rest && Recycling(Abs(), rest', wishes, q) else Abs() == q
    {
      var key;
      more, key := Begin(rest);
      if more {
        rest' := rest - {key};
        WaitingLess(Abs(), rest, key, Sockfd(Wish(wishes, key), open));
        Reconnect(freed[key], Wish(wishes, key), all, links);
      } else {
        rest' := rest;
        RecyclingEnds(Abs(), rest, wishes, q);
      }
    }

    method RecycleAll(wishes: map<int, int>, ghost all: set<Conn>, ghost links: map<Conn, Link>)
      requires Sound() && HoldAll(all, links) && Waiting(Abs(), freed.Keys)
      modifies this`conns, this`open, this`made, (set key: int | key in freed :: freed[key])`srvfd
      ensures Sound() && HoldAll(all, links) && Abs() == Reconnected(old(Abs()), freed.Keys, wishes)
    {
      ghost var q := Reconnected(Abs(), freed.Keys, wishes);
      var more, rest := true, freed.Keys;
      while more
        invariant Sound() && HoldAll(all, links) && if more then Recycling(Abs(), rest, wishes, q) else Abs() == q
        decreases more, rest
      {
        more, rest := RecycleNext(rest, wishes, q, all, links);
      }
    }

    /** `m_freed.clear()` */
    method Clear()
      requires Sound()
      modifies this`freed
      ensures Sound() && Abs() == old(Abs()).(freed := map[])
    {
      freed := map[];
    }

    /** The loop of `recycle_conns` and the `clear` behind it. */
    method RecycleAndClear(wishes: map<int, int>, ghost all: set<Conn>, ghost links: map<Conn, Link>)
      requires Sound() && HoldAll(all, links) && Waiting(Abs(), freed.Keys)
      modifies this`conns, this`open, this`made, this`freed, (set key: int | key in freed :: freed[key])`srvfd
      ensures Sound() && HoldAll(all, links)
      ensures Abs() == Reconnected(old(Abs()), old(freed).Keys, wishes).(freed := map[])
    {
      RecycleAll(wishes, all, links);
      Clear();
    }

    /**
     * Each freed connection is idle again, under its new descriptor, if and only if its reconnect gets one; otherwise
     * it is dropped.
     */
    method RecycleConns(wishes: map<int, int>, ghost all: set<Conn>, ghost links: map<Conn, Link>)
      requires Valid() && HoldAll(all, links)
      modifies this`conns, this`open, this`made, this`freed, (set key: int | key in freed :: freed[key])`srvfd
      ensures Valid() && HoldAll(all, links) && Abs() == AfterRecycle(old(Abs()), wishes)
      ensures Recycled(old(Abs()), Abs().(freed := old(freed))) && AsWished(old(Abs()), wishes, Abs())
    {
      RecycleKeepsInv(Abs(), wishes);
      RecycleAndClear(wishes, all, links);
    }
  }
}
