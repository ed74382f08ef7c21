/** The pool of server connections of springsnail: class `mgr`, and the child process that calls it. */
module ProxyPool {
  import opened ProxyConn

  datatype OpType = READ | WRITE | ERROR

  datatype Interest = EPOLLIN | EPOLLOUT

  /** Where a connection object is. `Dropped` ones were left out by a reconnect that failed. */
  datatype Place = Idle | Busy | Freed | Dropped

  datatype Entry = Entry(place: Place, clt: int, srv: int)

  /**
   * The three maps of the pool and the kernel's open descriptors and epoll set; and, for every connection object that
   * was made, where it is and its two descriptors.
   */
  datatype Pool = Pool(
    conns: map<int, Conn>, used: map<int, Conn?>, freed: map<int, Conn>,
    open: set<int>, epoll: map<int, Interest>,
    made: map<Conn, Entry>)

  predicate IsAt(p: Pool, older c: Conn, place: Place) {
    c in p.made && p.made[c].place == place
  }

  /** A busy connection uses the descriptors of both its ends. */
  predicate Uses(p: Pool, older c: Conn, fd: int) {
    IsAt(p, c, Busy) && (fd == p.made[c].clt || fd == p.made[c].srv)
  }

  /** An idle connection goes by the descriptor of its server, a busy one by those it uses. */
  predicate GoesBy(p: Pool, older c: Conn, fd: int) {
    Uses(p, c, fd) || (IsAt(p, c, Idle) && fd == p.made[c].srv)
  }

  /** What a connection goes by is open, and no other connection goes by it. */
  ghost predicate DescriptorsInv(p: Pool) {
    && (forall fd | fd in p.open :: fd >= 0)
    && (forall c, fd | GoesBy(p, c, fd) :: fd in p.open)
    && (forall c, d, fd | GoesBy(p, c, fd) && GoesBy(p, d, fd) :: c == d)
    && (forall c | IsAt(p, c, Busy) :: p.made[c].clt != p.made[c].srv)
  }

  /** Idle connections are in `conns` under the descriptor of their server. */
  ghost predicate IdleInv(p: Pool) {
    && (forall fd | fd in p.conns :: IsAt(p, p.conns[fd], Idle) && p.made[p.conns[fd]].srv == fd)
    && (forall c | IsAt(p, c, Idle) :: p.made[c].srv in p.conns && p.conns[p.made[c].srv] == c)
  }

  /** Busy ones are in `used` under each of their descriptors, unless the entry is null. */
  ghost predicate UsedInv(p: Pool) {
    && (forall fd | fd in p.used :: p.used[fd] == null || Uses(p, p.used[fd], fd))
    && (forall c, fd | Uses(p, c, fd) :: fd in p.used && (p.used[fd] == null || p.used[fd] == c))
  }

  /** Exactly the descriptors of busy connections are watched. */
  ghost predicate WatchedInv(p: Pool) {
    forall fd :: fd in p.epoll <==> exists c :: Uses(p, c, fd)
  }

  /** Freed ones are in `freed` under the server descriptor they had, which nothing else in the pool goes by. */
  ghost predicate FreedInv(p: Pool) {
    && (forall fd | fd in p.freed :: IsAt(p, p.freed[fd], Freed) && p.made[p.freed[fd]].srv == fd)
    && (forall c | IsAt(p, c, Freed) :: p.made[c].srv in p.freed && p.freed[p.made[c].srv] == c)
    && (forall c | c in p.made && (IsAt(p, c, Idle) || IsAt(p, c, Busy)) :: p.made[c].srv !in p.freed)
  }

  ghost predicate CoreInv(p: Pool) {
    DescriptorsInv(p) && IdleInv(p) && UsedInv(p) && WatchedInv(p)
  }

  /** What holds in every run: each object is in one place, but entries of `used` may be null. */
  ghost predicate LaxInv(p: Pool) {
    CoreInv(p) && FreedInv(p)
  }

  ghost predicate NoNulls(p: Pool) {
    forall fd | fd in p.used :: p.used[fd] != null
  }

  /** The pool as it is meant to be. */
  ghost predicate PoolInv(p: Pool) {
    LaxInv(p) && NoNulls(p)
  }

  /** `map::insert` leaves an entry that is there. */
  function Insert<V>(m: map<int, V>, k: int, v: V): (r: map<int, V>) {
    if k in m then m else m[k := v]
  }

  lemma {:induction false} LeastExists(s: set<int>, x: int)
    requires x in s
    ensures exists k :: k in s && forall j | j in s :: k <= j
    decreases s
  {
    if y :| y in s && y < x {
      LeastExists(s - {x}, y);
      var k :| k in s - {x} && forall j | j in s - {x} :: k <= j;
      assert forall j | j in s :: j == x || j in s - {x};
      assert k in s && forall j | j in s :: k <= j;
    }
  }

  ghost predicate NonEmpty(s: set<int>) {
    exists x :: x in s
  }

  /** `begin()` of a map: its least key. */
  ghost function Least(s: set<int>): (k: int)
    requires NonEmpty(s)
    ensures k in s && forall j | j in s :: k <= j
  {
    var x :| x in s;
    LeastExists(s, x);
    var k :| k in s && forall j | j in s :: k <= j;
    k
  }

  // ----- The operations on the pool

  /** `pick_conn` and, for the connection it returns, `init_clt`; `cltfd` is a new client. */
  ghost function AfterPick(p: Pool, cltfd: int): (p': Pool)
    requires NonEmpty(p.conns.Keys)
  {
    var srvfd := Least(p.conns.Keys);
    var c := p.conns[srvfd];
    p.(conns := p.conns - {srvfd},
    used := Insert(Insert(p.used, cltfd, c), srvfd, c),
    epoll := Insert(Insert(p.epoll, cltfd, EPOLLIN), srvfd, EPOLLIN),
    open := p.open + {cltfd},
    made := p.made[c := Entry(Busy, cltfd, srvfd)])
  }

  function AfterFree(p: Pool, c: Conn): (p': Pool)
    requires c in p.made
  {
    var fds := {p.made[c].clt, p.made[c].srv};
    p.(used := p.used - fds,
    epoll := p.epoll - fds,
    open := p.open - fds,
    freed := Insert(p.freed, p.made[c].srv, c),
    made := p.made[c := Entry(Freed, -1, p.made[c].srv)])
  }

  /** One turn of the loop of `recycle_conns`: `sockfd` is what `conn2srv` returned. */
  function AfterReconnect(p: Pool, c: Conn, sockfd: int): (p': Pool)
    requires c in p.made
  {
    if sockfd < 0 then p.(made := p.made[c := p.made[c].(place := Dropped)])
    else
      p.(conns := Insert(p.conns, sockfd, c),
      open := p.open + {sockfd},
      made := p.made[c := Entry(Idle, p.made[c].clt, sockfd)])
  }

  /** The look-up of `process`: `m_used[ fd ]` makes a null entry for a key that is not there. */
  function AfterLookUp(p: Pool, fd: int): (p': Pool) {
    p.(used := Insert(p.used, fd, null))
  }

  lemma UsersGoBy(p: Pool)
    ensures forall c, fd | Uses(p, c, fd) :: GoesBy(p, c, fd)
  {
  }

  lemma WatchedIsOpen(p: Pool)
    requires CoreInv(p)
    ensures p.epoll.Keys <= p.open
  {
    forall fd | fd in p.epoll ensures fd in p.open {
      var c :| Uses(p, c, fd);
      assert GoesBy(p, c, fd);
    }
  }

  /** What a pick changes. */
  lemma PickMoves(p: Pool, cltfd: int)
    requires CoreInv(p) && NonEmpty(p.conns.Keys) && cltfd !in p.open
    ensures var srvfd := Least(p.conns.Keys);
            var c := p.conns[srvfd];
            var q := AfterPick(p, cltfd);
            && IsAt(p, c, Idle) && p.made[c].srv == srvfd && srvfd in p.open && cltfd != srvfd
            && q.epoll.Keys == p.epoll.Keys + {cltfd, srvfd}
            && (forall d, fd :: GoesBy(q, d, fd) <==> GoesBy(p, d, fd) || (d == c && fd == cltfd))
            && (forall d, fd :: Uses(q, d, fd) <==> Uses(p, d, fd) || (d == c && fd in {cltfd, srvfd}))
  {
    var srvfd := Least(p.conns.Keys);
    var c := p.conns[srvfd];
    assert GoesBy(p, c, srvfd);
  }

  lemma PickKeepsDescriptors(p: Pool, cltfd: int)
    requires CoreInv(p) && NonEmpty(p.conns.Keys) && cltfd !in p.open && cltfd >= 0
    ensures DescriptorsInv(AfterPick(p, cltfd)) && IdleInv(AfterPick(p, cltfd))
  {
    PickMoves(p, cltfd);
  }

  lemma PickKeepsUsed(p: Pool, cltfd: int)
    requires CoreInv(p) && NonEmpty(p.conns.Keys) && cltfd !in p.open
    ensures UsedInv(AfterPick(p, cltfd))
    ensures NoNulls(p) ==> NoNulls(AfterPick(p, cltfd))
  {
    PickMoves(p, cltfd);
    UsersGoBy(p);
    var srvfd := Least(p.conns.Keys);
    assert GoesBy(p, p.conns[srvfd], srvfd);
    assert forall fd | fd in {cltfd, srvfd} && fd in p.used :: p.used[fd] == null;
  }

  lemma PickKeepsWatched(p: Pool, cltfd: int)
    requires CoreInv(p) && NonEmpty(p.conns.Keys) && cltfd !in p.open
    ensures WatchedInv(AfterPick(p, cltfd))
  {
    PickMoves(p, cltfd);
    var q := AfterPick(p, cltfd);
    var c := p.conns[Least(p.conns.Keys)];
    forall fd | fd in q.epoll ensures exists d :: Uses(q, d, fd) {
      if fd in p.epoll {
        var d :| Uses(p, d, fd);
        assert Uses(q, d, fd);
      } else {
        assert Uses(q, c, fd);
      }
    }
  }

  lemma PickKeepsInv(p: Pool, cltfd: int)
    requires LaxInv(p) && NonEmpty(p.conns.Keys) && cltfd !in p.open && cltfd >= 0
    ensures LaxInv(AfterPick(p, cltfd))
    ensures PoolInv(p) ==> PoolInv(AfterPick(p, cltfd))
  {
    PickMoves(p, cltfd);
    PickKeepsDescriptors(p, cltfd);
    PickKeepsUsed(p, cltfd);
    PickKeepsWatched(p, cltfd);
  }

  /** What freeing changes. */
  lemma FreeMoves(p: Pool, c: Conn)
    requires CoreInv(p) && IsAt(p, c, Busy)
    ensures var q := AfterFree(p, c);
            && (forall d, fd :: GoesBy(q, d, fd) <==> GoesBy(p, d, fd) && d != c)
            && (forall d, fd :: Uses(q, d, fd) <==> Uses(p, d, fd) && d != c)
            && (forall fd :: fd in {p.made[c].clt, p.made[c].srv} <==> Uses(p, c, fd))
  {
  }

  lemma FreeKeepsCore(p: Pool, c: Conn)
    requires CoreInv(p) && IsAt(p, c, Busy)
    ensures CoreInv(AfterFree(p, c))
  {
    FreeMoves(p, c);
    var q := AfterFree(p, c);
    UsersGoBy(p);
    forall d, fd | GoesBy(p, d, fd) && d != c ensures fd != p.made[c].clt && fd != p.made[c].srv {
      assert GoesBy(p, c, p.made[c].clt) && GoesBy(p, c, p.made[c].srv);
    }
    assert DescriptorsInv(q);
  }

  lemma FreeKeepsInv(p: Pool, c: Conn)
    requires LaxInv(p) && IsAt(p, c, Busy)
    ensures LaxInv(AfterFree(p, c))
    ensures PoolInv(p) ==> PoolInv(AfterFree(p, c))
  {
    FreeKeepsCore(p, c);
    assert AfterFree(p, c).freed == p.freed[p.made[c].srv := c];
    forall d | d != c && (IsAt(p, d, Idle) || IsAt(p, d, Busy)) ensures p.made[d].srv != p.made[c].srv {
      assert GoesBy(p, d, p.made[d].srv) && GoesBy(p, c, p.made[c].srv);
    }
  }

  /** What a successful reconnect changes. */
  lemma ReuseMoves(p: Pool, c: Conn, sockfd: int)
    requires CoreInv(p) && IsAt(p, c, Freed) && sockfd !in p.open && sockfd >= 0
    ensures var q := AfterReconnect(p, c, sockfd);
            && sockfd !in p.conns && q.conns == p.conns[sockfd := c]
            && (forall d, fd :: GoesBy(q, d, fd) <==> GoesBy(p, d, fd) || (d == c && fd == sockfd))
            && (forall d, fd :: Uses(q, d, fd) <==> Uses(p, d, fd))
  {
    assert sockfd in p.conns ==> GoesBy(p, p.conns[sockfd], sockfd);
  }

  /** The same of a failed one. */
  lemma DropMoves(p: Pool, c: Conn, sockfd: int)
    requires IsAt(p, c, Freed) && sockfd < 0
    ensures var q := AfterReconnect(p, c, sockfd);
            && (forall d, fd :: GoesBy(q, d, fd) <==> GoesBy(p, d, fd))
            && (forall d, fd :: Uses(q, d, fd) <==> Uses(p, d, fd))
  {
  }

  /** Nothing that has to do with busy connections changes. */
  lemma SameUsers(p: Pool, q: Pool)
    requires UsedInv(p) && WatchedInv(p) && q.used == p.used && q.epoll == p.epoll
    requires forall d, fd :: Uses(q, d, fd) <==> Uses(p, d, fd)
    ensures UsedInv(q) && WatchedInv(q)
  {
  }

  lemma ReuseKeepsInv(p: Pool, c: Conn, sockfd: int)
    requires CoreInv(p) && IsAt(p, c, Freed) && sockfd !in p.open && sockfd >= 0
    ensures CoreInv(AfterReconnect(p, c, sockfd))
  {
    ReuseMoves(p, c, sockfd);
    SameUsers(p, AfterReconnect(p, c, sockfd));
  }

  lemma ReconnectKeepsInv(p: Pool, c: Conn, sockfd: int)
    requires CoreInv(p) && IsAt(p, c, Freed) && sockfd !in p.open
    ensures CoreInv(AfterReconnect(p, c, sockfd))
  {
    if sockfd >= 0 {
      ReuseKeepsInv(p, c, sockfd);
    } else {
      DropMoves(p, c, sockfd);
      SameUsers(p, AfterReconnect(p, c, sockfd));
    }
  }

  /** A connection object that the constructor of the pool has just made, connected to `sockfd`. */
  function AfterMake(p: Pool, c: Conn, sockfd: int): (p': Pool) {
    p.(conns := Insert(p.conns, sockfd, c), open := p.open + {sockfd}, made := p.made[c := Entry(Idle, -1, sockfd)])
  }

  lemma MakeMoves(p: Pool, c: Conn, sockfd: int)
    requires CoreInv(p) && c !in p.made && sockfd >= 0 && sockfd !in p.open
    ensures var q := AfterMake(p, c, sockfd);
            && sockfd !in p.conns && q.conns == p.conns[sockfd := c]
            && (forall d, fd :: GoesBy(q, d, fd) <==> GoesBy(p, d, fd) || (d == c && fd == sockfd))
            && (forall d, fd :: Uses(q, d, fd) <==> Uses(p, d, fd))
  {
    assert sockfd in p.conns ==> GoesBy(p, p.conns[sockfd], sockfd);
  }

  lemma MakeKeepsInv(p: Pool, c: Conn, sockfd: int)
    requires PoolInv(p) && p.freed == map[] && c !in p.made && sockfd >= 0 && sockfd !in p.open
    ensures PoolInv(AfterMake(p, c, sockfd))
  {
    MakeMoves(p, c, sockfd);
    SameUsers(p, AfterMake(p, c, sockfd));
  }

  // ----- A whole call of `recycle_conns`

  /** What the kernel makes of `connect`: it never hands out a descriptor that is open. */
  function Sockfd(wish: int, open: set<int>): (n: int) {
    if wish in open then -1 else wish
  }

  function Wish(wishes: map<int, int>, key: int): (n: int) {
    if key in wishes then wishes[key] else -1
  }

  /** The loop of `recycle_conns` over the keys `rest`, in the order of the map. */
  ghost function Reconnected(p: Pool, rest: set<int>, wishes: map<int, int>): (p': Pool)
    requires forall key | key in rest :: key in p.freed && p.freed[key] in p.made
    decreases rest
  {
    if NonEmpty(rest) then
      var key := Least(rest);
      Reconnected(AfterReconnect(p, p.freed[key], Sockfd(Wish(wishes, key), p.open)), rest - {key}, wishes)
    else p
  }

  /** The keys `rest` are those of the connections that are still to be reconnected. */
  ghost predicate Waiting(p: Pool, rest: set<int>) {
    && (forall key | key in rest :: key in p.freed && IsAt(p, p.freed[key], Freed) && p.made[p.freed[key]].srv == key)
    && (forall c | IsAt(p, c, Freed) :: p.made[c].srv in rest && p.freed[p.made[c].srv] == c)
  }

  lemma WaitingLess(p: Pool, rest: set<int>, key: int, sockfd: int)
    requires Waiting(p, rest) && key in rest
    ensures Waiting(AfterReconnect(p, p.freed[key], sockfd), rest - {key})
  {
  }

  lemma WaitingStep(p: Pool, rest: set<int>, key: int, sockfd: int)
    requires CoreInv(p) && Waiting(p, rest) && key in rest && sockfd !in p.open
    ensures var q := AfterReconnect(p, p.freed[key], sockfd); CoreInv(q) && Waiting(q, rest - {key})
  {
    WaitingLess(p, rest, key, sockfd);
    ReconnectKeepsInv(p, p.freed[key], sockfd);
  }

  /** Whoever was freed is idle again or dropped; nobody else is touched. */
  ghost predicate Recycled(p: Pool, q: Pool) {
    && q.used == p.used && q.epoll == p.epoll && q.freed == p.freed && q.made.Keys == p.made.Keys && p.open <= q.open
    && (forall c | c in p.made && IsAt(p, c, Freed) ::
          q.made[c].place in {Idle, Dropped} && q.made[c].clt == p.made[c].clt)
    && (forall c | c in p.made && !IsAt(p, c, Freed) :: q.made[c] == p.made[c])
  }

  lemma ReconnectRecycles(p: Pool, rest: set<int>, key: int, sockfd: int, q: Pool)
    requires Waiting(p, rest) && key in rest
    requires Recycled(AfterReconnect(p, p.freed[key], sockfd), q)
    ensures Recycled(p, q)
  {
    var m := AfterReconnect(p, p.freed[key], sockfd);
    assert forall c | c in p.made && c != p.freed[key] :: m.made[c] == p.made[c];
  }

  lemma ClearKeepsInv(p: Pool, rest: set<int>)
    requires CoreInv(p) && Waiting(p, rest) && !NonEmpty(rest)
    ensures LaxInv(p.(freed := map[]))
  {
    var q := p.(freed := map[]);
    assert forall c | c in p.made :: !IsAt(p, c, Freed);
    assert forall c, fd :: GoesBy(q, c, fd) <==> GoesBy(p, c, fd);
    assert forall c, fd :: Uses(q, c, fd) <==> Uses(p, c, fd);
    SameUsers(p, q);
  }

  lemma {:induction false} ReconnectedKeepsInv(p: Pool, rest: set<int>, wishes: map<int, int>)
    requires CoreInv(p) && Waiting(p, rest)
    ensures Recycled(p, Reconnected(p, rest, wishes)) && LaxInv(Reconnected(p, rest, wishes).(freed := map[]))
    decreases rest
  {
    if NonEmpty(rest) {
      var key := Least(rest);
      var sockfd := Sockfd(Wish(wishes, key), p.open);
      WaitingStep(p, rest, key, sockfd);
      ReconnectedKeepsInv(AfterReconnect(p, p.freed[key], sockfd), rest - {key}, wishes);
      ReconnectRecycles(p, rest, key, sockfd, Reconnected(p, rest, wishes));
    } else {
      ClearKeepsInv(p, rest);
    }
  }

  /** The reconnect for the key `key` gets a descriptor: its wish is free, and no earlier key has taken it. */
  ghost predicate Connects(p: Pool, rest: set<int>, wishes: map<int, int>, key: int) {
    var wish := Wish(wishes, key);
    wish >= 0 && wish !in p.open && forall k | k in rest && k < key :: Wish(wishes, k) != wish
  }

  /** The first reconnect decides about the later ones only by the descriptor it takes. */
  lemma ConnectsLater(p: Pool, rest: set<int>, wishes: map<int, int>, first: int, key: int)
    requires first in rest && (forall k | k in rest :: first <= k) && key in rest - {first}
    requires first in p.freed && p.freed[first] in p.made
    ensures var q := AfterReconnect(p, p.freed[first], Sockfd(Wish(wishes, first), p.open));
            Connects(q, rest - {first}, wishes, key) <==> Connects(p, rest, wishes, key)
  {
    var q := AfterReconnect(p, p.freed[first], Sockfd(Wish(wishes, first), p.open));
    var wish := Wish(wishes, key);
    assert q.open == if Connects(p, rest, wishes, first) then p.open + {Wish(wishes, first)} else p.open;
    if Connects(p, rest, wishes, key) {
      assert Wish(wishes, first) != wish;
    }
  }

  /** Whoever was freed is idle again if and only if its reconnect gets a descriptor, and then goes by that one. */
  lemma {:induction false} RecyclesAsWished(p: Pool, rest: set<int>, wishes: map<int, int>, key: int)
    requires CoreInv(p) && Waiting(p, rest) && key in rest
    ensures var c := p.freed[key];
            var q := Reconnected(p, rest, wishes);
            && c in q.made
            && q.made[c] == if Connects(p, rest, wishes, key) then Entry(Idle, p.made[c].clt, Wish(wishes, key))
                            else p.made[c].(place := Dropped)
    decreases rest
  {
    var first := Least(rest);
    var sockfd := Sockfd(Wish(wishes, first), p.open);
    var q := AfterReconnect(p, p.freed[first], sockfd);
    WaitingStep(p, rest, first, sockfd);
    if key == first {
      ReconnectedKeepsInv(q, rest - {first}, wishes);
      assert !IsAt(q, p.freed[first], Freed);
    } else {
      ConnectsLater(p, rest, wishes, first, key);
      RecyclesAsWished(q, rest - {first}, wishes, key);
    }
  }

  /** A whole call of `recycle_conns`. */
  ghost function AfterRecycle(p: Pool, wishes: map<int, int>): (p': Pool)
    requires LaxInv(p)
  {
    Reconnected(p, p.freed.Keys, wishes).(freed := map[])
  }

  ghost function Recycle(p: Pool, wishes: map<int, int>, e: Entry): (e': Entry) {
    if Connects(p, p.freed.Keys, wishes, e.srv) then Entry(Idle, e.clt, Wish(wishes, e.srv)) else e.(place := Dropped)
  }

  /** Each freed connection is idle under the descriptor its reconnect gets, or dropped if it gets none. */
  ghost predicate AsWished(p: Pool, wishes: map<int, int>, q: Pool) {
    forall c | IsAt(p, c, Freed) :: c in q.made && q.made[c] == Recycle(p, wishes, p.made[c])
  }

  lemma RecycleKeepsInv(p: Pool, wishes: map<int, int>)
    requires LaxInv(p)
    ensures var q := AfterRecycle(p, wishes);
            LaxInv(q) && (PoolInv(p) ==> PoolInv(q)) && Recycled(p, q.(freed := p.freed)) && AsWished(p, wishes, q)
  {
    var q := Reconnected(p, p.freed.Keys, wishes);
    ReconnectedKeepsInv(p, p.freed.Keys, wishes);
    assert q.(freed := map[]).(freed := p.freed) == q;
    forall c | IsAt(p, c, Freed) ensures c in q.made && q.made[c] == Recycle(p, wishes, p.made[c]) {
      RecyclesAsWished(p, p.freed.Keys, wishes, p.made[c].srv);
    }
  }

  // ----- Looking up a descriptor that is not in use

  /** A look-up never moves a connection. */
  lemma LookUpKeepsLax(p: Pool, fd: int)
    requires LaxInv(p)
    ensures LaxInv(AfterLookUp(p, fd))
  {
    var q := AfterLookUp(p, fd);
    assert forall c, x :: GoesBy(q, c, x) <==> GoesBy(p, c, x);
    assert forall c, x :: Uses(q, c, x) <==> Uses(p, c, x);
  }

  /** The look-up keeps the pool intact exactly when the descriptor is a busy connection's. */
  lemma LookUpKeepsInvIff(p: Pool, fd: int)
    requires PoolInv(p)
    ensures PoolInv(AfterLookUp(p, fd)) <==> fd in p.used
  {
    if fd !in p.used {
      assert AfterLookUp(p, fd).used[fd] == null;
    } else {
      assert AfterLookUp(p, fd) == p;
    }
  }

  /** A busy connection that is not found under the descriptor of its client. */
  ghost predicate IsHidden(p: Pool, older c: Conn, fd: int) {
    IsAt(p, c, Busy) && p.made[c].clt == fd && fd in p.used && p.used[fd] == null
  }

  /** After a look-up of a stale descriptor, a client that is accepted with it gets a connection that none can find. */
  lemma StaleLookUpHidesClient(p: Pool, fd: int)
    requires LaxInv(p) && fd !in p.open && NonEmpty(p.conns.Keys)
    ensures IsHidden(AfterPick(AfterLookUp(p, fd), fd), p.conns[Least(p.conns.Keys)], fd)
  {
    LookUpKeepsLax(p, fd);
    var q := AfterLookUp(p, fd);
    UsersGoBy(p);
    PickMoves(q, fd);
  }

  // ----- The count of used entries

  ghost function BusyConns(p: Pool): (conns: set<Conn>) {
    set c | c in p.made && p.made[c].place == Busy
  }

  lemma {:induction false} TwoEntriesEach(used: map<int, Conn?>, busy: set<Conn>, made: map<Conn, Entry>)
    requires busy <= made.Keys
    requires forall fd | fd in used :: var c := used[fd]; c in busy && (fd == made[c].clt || fd == made[c].srv)
    requires forall c | c in busy :: made[c].clt != made[c].srv
               && made[c].clt in used && used[made[c].clt] == c && made[c].srv in used && used[made[c].srv] == c
    ensures |used| == 2 * |busy|
    decreases busy
  {
    if busy == {} {
      assert forall fd :: fd !in used;
      assert used == map[];
    } else {
      var c :| c in busy;
      var rest := used - {made[c].clt, made[c].srv};
      TwoEntriesEach(rest, busy - {c}, made);
      assert used.Keys == rest.Keys + {made[c].clt, made[c].srv};
    }
  }

  /** `get_used_conn_cnt` is twice the number of busy connections. */
  lemma UsedCount(p: Pool)
    requires PoolInv(p)
    ensures |p.used| == 2 * |BusyConns(p)|
  {
    forall c | c in BusyConns(p)
      ensures p.made[c].clt != p.made[c].srv && p.made[c].clt in p.used && p.used[p.made[c].clt] == c
      ensures p.made[c].srv in p.used && p.used[p.made[c].srv] == c
    {
      assert IsAt(p, c, Busy) && GoesBy(p, c, p.made[c].clt) && GoesBy(p, c, p.made[c].srv);
      assert Uses(p, p.used[p.made[c].clt], p.made[c].clt) && Uses(p, p.used[p.made[c].srv], p.made[c].srv);
    }
    forall fd | fd in p.used
      ensures var c := p.used[fd]; c in BusyConns(p) && (fd == p.made[c].clt || fd == p.made[c].srv)
    {
      assert Uses(p, p.used[fd], fd);
    }
    TwoEntriesEach(p.used, BusyConns(p), p.made);
  }
}
