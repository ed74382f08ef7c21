/** The loop of `server_poll.c` that walks its poll entries while it appends, swap-removes and re-arms them. */
module PollScan {
  import opened Maps

  const MAX_CLIENT_NUM: nat := 128

  /** POLLIN, POLLOUT, POLLRDHUP and POLLERR. */
  datatype Mask = Mask(input: bool, output: bool, rdhup: bool, err: bool)

  const NONE := Mask(false, false, false, false)
  const LISTENING := Mask(true, false, false, false)
  const NEW_CLIENT := Mask(true, false, true, false)

  datatype PollFd = PollFd(fd: int, events: Mask, revents: Mask)

  /** `poll` reports what was asked for, and errors. */
  function Reported(events: Mask, ready: Mask): (mask: Mask) {
    Mask(events.input && ready.input, events.output && ready.output, events.rdhup && ready.rdhup, ready.err)
  }

  /** What is ready at a descriptor, of all that the kernel has ready. */
  function ReadyOf(ready: map<int, Mask>, fd: int): (mask: Mask) {
    if fd in ready then ready[fd] else NONE
  }

  /** What `recv` returns for a client: bytes, nothing, `EAGAIN`, or another error. */
  datatype Recv = Got | Zero | Again | Failed

  // ----- What handling one client means

  /** A client that is waited for, or one that a message from the buffer of `from` is to be sent to. */
  datatype Client = Reading | Sending(from: int)

  type Chat = map<int, Client>

  ghost function Broadcast(chat: Chat, from: int): (r: Chat)
    ensures r.Keys == chat.Keys
    ensures forall fd | fd in r :: r[fd] == if fd == from then chat[fd] else Sending(from)
  {
    Tabulate(chat.Keys, fd => if fd == from && fd in chat then chat[fd] else Sending(from))
  }

  predicate Leaves(re: Mask, recv: Recv) {
    !re.err && (re.rdhup || (re.input && recv.Failed?))
  }

  ghost function Handled(chat: Chat, fd: int, re: Mask, recv: Recv): (chat': Chat) {
    if re.err then chat
    else if Leaves(re, recv) then chat - {fd}
    else if re.input then (if recv.Got? then Broadcast(chat, fd) else chat)
    else if re.output then chat[fd := Reading]
    else chat
  }

  function RecvOf(recvs: map<int, Recv>, fd: int): (recv: Recv) {
    if fd in recvs then recvs[fd] else Again
  }

  /** The clients of `seen`, one after the other, each for its own events. */
  ghost function HandledAll(chat: Chat, seen: seq<int>, re: map<int, Mask>, recvs: map<int, Recv>): (chat': Chat)
    requires forall fd | fd in seen :: fd in re
  {
    if seen == [] then chat
    else
      var fd := seen[|seen| - 1];
      Handled(HandledAll(chat, seen[..|seen| - 1], re, recvs), fd, re[fd], RecvOf(recvs, fd))
  }

  lemma HandledOneMore(chat: Chat, seen: seq<int>, fd: int, re: map<int, Mask>, recvs: map<int, Recv>)
    requires fd in re && forall id | id in seen :: id in re
    ensures forall id | id in seen + [fd] :: id in re
    ensures HandledAll(chat, seen + [fd], re, recvs)
         == Handled(HandledAll(chat, seen, re, recvs), fd, re[fd], RecvOf(recvs, fd))
  {
    assert (seen + [fd])[..|seen|] == seen;
  }

  // ----- What a pass means, told by what was reported and received

  /** The client left, or receiving from it failed. */
  predicate HangsUp(r: Mask, recvs: map<int, Recv>, fd: int) {
    !r.err && (r.rdhup || (r.input && fd in recvs && recvs[fd].Failed?))
  }

  /** A message was received from the client. */
  predicate Speaks(r: Mask, recvs: map<int, Recv>, fd: int) {
    !r.err && !r.rdhup && r.input && fd in recvs && recvs[fd].Got?
  }

  /** The client could be written to, and nothing else was reported of it. */
  predicate IsWritable(r: Mask) {
    !r.err && !r.rdhup && !r.input && r.output
  }

  /** What happened at place `k` of the order matters to `fd`: a message of another client, or an output of its own. */
  predicate Matters(seen: seq<int>, re: map<int, Mask>, recvs: map<int, Recv>, fd: int, k: int)
    requires 0 <= k < |seen| && forall id | id in seen :: id in re
  {
    if seen[k] == fd then IsWritable(re[fd]) else Speaks(re[seen[k]], recvs, seen[k])
  }

  predicate MattersLast(seen: seq<int>, re: map<int, Mask>, recvs: map<int, Recv>, fd: int, k: int)
    requires forall id | id in seen :: id in re
  {
    && 0 <= k < |seen| && Matters(seen, re, recvs, fd, k)
    && forall j | k < j < |seen| :: !Matters(seen, re, recvs, fd, j)
  }

  /**
   * Those stay that do not hang up. A client that stays is waited for if what mattered to it last was an output of
   * its own; it is to be sent the message of another client if this was what mattered last; and it is as before if
   * nothing mattered to it.
   */
  ghost predicate Settled(before: Chat, after: Chat, seen: seq<int>, re: map<int, Mask>, recvs: map<int, Recv>)
    requires forall fd | fd in seen :: fd in re
  {
    && (forall fd :: fd in after <==> fd in before && !(fd in seen && HangsUp(re[fd], recvs, fd)))
    && (forall fd, k | fd in after && MattersLast(seen, re, recvs, fd, k) ::
          after[fd] == if seen[k] == fd then Reading else Sending(seen[k]))
    && (forall fd | fd in after && (forall k | 0 <= k < |seen| :: !Matters(seen, re, recvs, fd, k)) ::
          after[fd] == before[fd])
  }

  /** Before anything else happens to it, `fd` is to be sent the message of `from`. */
  ghost predicate IsToGet(before: Chat, seen: seq<int>, re: map<int, Mask>, recvs: map<int, Recv>, fd: int, from: int)
    requires forall id | id in seen :: id in re
  {
    || (exists k :: MattersLast(seen, re, recvs, fd, k) && seen[k] == from)
    || ((forall k | 0 <= k < |seen| :: !Matters(seen, re, recvs, fd, k)) && fd in before && before[fd] == Sending(from))
  }

  /** Each client that can be written to is sent, at its place, the message it is to get there; and nobody else is. */
  ghost predicate Delivered(before: Chat, seen: seq<int>, re: map<int, Mask>, recvs: map<int, Recv>,
                            sent: map<int, int>)
    requires forall fd | fd in seen :: fd in re
  {
    && (forall fd :: fd in sent <==> fd in seen && IsWritable(re[fd]))
    && (forall fd, k | fd in sent && 0 <= k < |seen| && seen[k] == fd ::
          IsToGet(before, seen[..k], re, recvs, fd, sent[fd]))
  }

  lemma {:induction false} LastThatMatters(seen: seq<int>, re: map<int, Mask>, recvs: map<int, Recv>, fd: int, n: nat)
    returns (k: int)
    requires (forall id | id in seen :: id in re) && n <= |seen|
    requires forall j | n <= j < |seen| :: !Matters(seen, re, recvs, fd, j)
    ensures MattersLast(seen, re, recvs, fd, k) || forall j | 0 <= j < |seen| :: !Matters(seen, re, recvs, fd, j)
    decreases n
  {
    k := n - 1;
    if n > 0 && !Matters(seen, re, recvs, fd, n - 1) {
      k := LastThatMatters(seen, re, recvs, fd, n - 1);
    }
  }

  /** What a client that was not handled yet is to get is what it is armed for. */
  lemma ToGetIsArmed(before: Chat, chat: Chat, seen: seq<int>, re: map<int, Mask>, recvs: map<int, Recv>, fd: int,
                     from: int)
    requires (forall id | id in seen :: id in re) && Settled(before, chat, seen, re, recvs)
    requires fd in chat && fd !in seen && chat[fd] == Sending(from)
    ensures IsToGet(before, seen, re, recvs, fd, from)
  {
    var k := LastThatMatters(seen, re, recvs, fd, |seen|);
    if MattersLast(seen, re, recvs, fd, k) {
      assert seen[k] in seen;
    }
  }

  lemma DeliveredOneMore(before: Chat, seen: seq<int>, re: map<int, Mask>, recvs: map<int, Recv>, sent: map<int, int>,
                         fd: int, sent': map<int, int>)
    requires (forall id | id in seen + [fd] :: id in re) && fd !in seen
    requires (forall id | id in seen :: id in re) && Delivered(before, seen, re, recvs, sent)
    requires if IsWritable(re[fd]) then
               fd in sent' && sent' == sent[fd := sent'[fd]] && IsToGet(before, seen, re, recvs, fd, sent'[fd])
             else sent' == sent
    ensures Delivered(before, seen + [fd], re, recvs, sent')
  {
    var seen' := seen + [fd];
    forall id, k | id in sent' && 0 <= k < |seen'| && seen'[k] == id
      ensures IsToGet(before, seen'[..k], re, recvs, id, sent'[id])
    {
      assert seen'[..k] == if k < |seen| then seen[..k] else seen;
    }
  }

  /** One client more: what mattered before its place matters on, unless its own event matters to `fd`. */
  lemma SettledForOne(before: Chat, mid: Chat, seen: seq<int>, fd: int, re: map<int, Mask>, recvs: map<int, Recv>)
    requires forall id | id in seen + [fd] :: id in re && id in before
    requires fd !in seen
    requires forall id | id in seen :: id in re
    requires Settled(before, mid, seen, re, recvs)
    ensures Settled(before, Handled(mid, fd, re[fd], RecvOf(recvs, fd)), seen + [fd], re, recvs)
  {
    var seen', after := seen + [fd], Handled(mid, fd, re[fd], RecvOf(recvs, fd));
    assert fd in mid;
    var n := |seen|;
    forall id, k | id in after && 0 <= k < n
      ensures Matters(seen', re, recvs, id, k) <==> Matters(seen, re, recvs, id, k)
    {
    }
    forall id, k | id in after && MattersLast(seen', re, recvs, id, k)
      ensures after[id] == if seen'[k] == id then Reading else Sending(seen'[k])
    {
      if k < n {
        assert !Matters(seen', re, recvs, id, n);
        assert MattersLast(seen, re, recvs, id, k);
      }
    }
    forall id | id in after && (forall k | 0 <= k < n + 1 :: !Matters(seen', re, recvs, id, k))
      ensures after[id] == before[id]
    {
      assert !Matters(seen', re, recvs, id, n);
    }
  }

  /** Handling clients one after the other comes to what was reported of them and received from them, in that order. */
  lemma {:induction false} HandledSettles(chat: Chat, seen: seq<int>, re: map<int, Mask>, recvs: map<int, Recv>)
    requires forall fd | fd in seen :: fd in re && fd in chat
    requires forall i, j | 0 <= i < j < |seen| :: seen[i] != seen[j]
    ensures Settled(chat, HandledAll(chat, seen, re, recvs), seen, re, recvs)
  {
    if seen != [] {
      var rest := seen[..|seen| - 1];
      HandledSettles(chat, rest, re, recvs);
      assert rest + [seen[|seen| - 1]] == seen;
      SettledForOne(chat, HandledAll(chat, rest, re, recvs), rest, seen[|seen| - 1], re, recvs);
    }
  }

  /** The events that a client is waited for with. */
  function Asked(c: Client): (mask: Mask) {
    if c.Reading? then NEW_CLIENT else Mask(false, true, true, false)
  }

  /** What `poll` reports for each client. */
  ghost function Reports(chat: Chat, ready: map<int, Mask>): (re: map<int, Mask>)
    ensures re.Keys == chat.Keys && forall fd | fd in chat :: re[fd] == Reported(Asked(chat[fd]), ReadyOf(ready, fd))
  {
    Tabulate(chat.Keys, fd => if fd in chat then Reported(Asked(chat[fd]), ReadyOf(ready, fd)) else NONE)
  }

  lemma {:induction false} DistinctMembers(s: seq<int>)
    requires forall i, j | 0 <= i < j < |s| :: s[i] != s[j]
    ensures |(set fd | fd in s)| == |s|
  {
    if s != [] {
      var rest := s[..|s| - 1];
      DistinctMembers(rest);
      assert (set fd | fd in s) == (set fd | fd in rest) + {s[|s| - 1]};
    }
  }

  // ----- The server

  ghost predicate ClientEvents(events: Mask) {
    events.rdhup && !events.err && events.input != events.output
  }

  /** What a poll entry and the table of pending messages say about a client. */
  ghost function ClientAt(p: PollFd, wb: map<int, int>): (client: Client)
    requires p.events.output ==> p.fd in wb
  {
    if p.events.output then Sending(wb[p.fd]) else Reading
  }

  class Server {
    const listenfd: int
    const pfd: array<PollFd>
    /** `current_client_num` */
    var cur: nat
    /** `clients[fd].wb`: whose receive buffer it points to. It outlives its client. */
    var wb: map<int, int>
    /** The connections that the kernel has open. */
    var open: set<int>

    ghost var chat: Chat
    ghost var at: map<int, nat>

    /** The entry at `k` is that of a client, armed for input or output, for output only with a pending message. */
    ghost predicate IsClient(k: nat)
      requires k < pfd.Length
      reads this, pfd
    {
      var p := pfd[k];
      && p.fd in at && at[p.fd] == k && p.fd in chat
      && ClientEvents(p.events) && (p.events.output ==> p.fd in wb) && chat[p.fd] == ClientAt(p, wb)
    }

    ghost predicate Valid()
      reads this, pfd
    {
      && pfd.Length == MAX_CLIENT_NUM + 1 && cur <= MAX_CLIENT_NUM
      && pfd[0].fd == listenfd && pfd[0].events == LISTENING && listenfd !in chat
      && at.Keys == chat.Keys == open
      && (forall fd | fd in chat :: 1 <= at[fd] <= cur && pfd[at[fd]].fd == fd)
      && (forall k | 1 <= k <= cur :: IsClient(k))
    }

    constructor (listenfd: int)
      ensures Valid() && fresh(pfd) && this.listenfd == listenfd && cur == 0 && chat == map[]
    {
      this.listenfd := listenfd;
      pfd := new PollFd[MAX_CLIENT_NUM + 1](_ => PollFd(0, NONE, NONE));
      cur, wb, open := 0, map[], {};
      chat, at := map[], map[];
      new;
      pfd[0] := PollFd(listenfd, LISTENING, NONE);
    }

    method Append(connfd: int)
      requires Valid() && connfd !in chat && connfd != listenfd && cur < MAX_CLIENT_NUM
      modifies this`cur, this`open, this`chat, this`at, pfd
      ensures Valid() && cur == old(cur) + 1 && chat == old(chat)[connfd := Reading]
      ensures pfd[cur] == PollFd(connfd, NEW_CLIENT, NONE)
      ensures forall k | 0 <= k <= old(cur) :: pfd[k] == old(pfd[k])
    {
      cur := cur + 1;
      pfd[cur] := PollFd(connfd, NEW_CLIENT, NONE);
      open := open + {connfd};
      chat, at := chat[connfd := Reading], at[connfd := cur];
      assert IsClient(cur);
      forall k | 1 <= k < cur ensures IsClient(k) {
        assert old(IsClient(k));
      }
    }

    /** The last entry takes the place of the one at `i`; the copied client data is that of a closed descriptor. */
    method SwapRemove(i: nat)
      requires Valid() && 1 <= i <= cur
      modifies this`cur, this`wb, this`open, this`chat, this`at, pfd
      ensures Valid() && cur == old(cur) - 1 && chat == old(chat) - {old(pfd[i].fd)}
      ensures pfd[i] == old(pfd[cur]) && at == old(at)[old(pfd[cur].fd) := i] - {old(pfd[i].fd)}
      ensures forall k | 0 <= k < pfd.Length && k != i :: pfd[k] == old(pfd[k])
    {
      var fd, last := pfd[i].fd, pfd[cur].fd;
      assert IsClient(i) && IsClient(cur);
      ghost var n := cur;
      wb := if last in wb then wb[fd := wb[last]] else wb - {fd};
      open := open - {fd};
      pfd[i] := pfd[cur];
      cur := cur - 1;
      chat, at := chat - {fd}, at[last := i] - {fd};
      forall k | 1 <= k <= cur ensures IsClient(k) {
        assert old(IsClient(if k == i then n else k));
      }
    }

    /** The loop that arms every client but `connfd`. */
    method RearmOthers(connfd: int)
      requires Valid()
      modifies this`wb, pfd
      ensures forall fd | fd in old(wb) :: fd in wb
      ensures connfd in old(wb) ==> wb[connfd] == old(wb)[connfd]
      ensures forall k | 0 <= k < pfd.Length :: pfd[k] == old(pfd[k]).(events := pfd[k].events)
      ensures forall k | 1 <= k <= cur ::
                if pfd[k].fd == connfd then pfd[k] == old(pfd[k])
                else pfd[k].events == Mask(false, true, true, false) && pfd[k].fd in wb && wb[pfd[k].fd] == connfd
      ensures forall k | k == 0 || cur < k < pfd.Length :: pfd[k] == old(pfd[k])
    {
      assert forall k | 1 <= k <= cur :: old(IsClient(k));
      for j := 1 to cur + 1
        modifies this`wb, pfd
        invariant forall fd | fd in old(wb) :: fd in wb
        invariant forall k | 0 <= k < pfd.Length :: pfd[k] == old(pfd[k]).(events := pfd[k].events)
        invariant forall k | 1 <= k < j ::
                    if pfd[k].fd == connfd then pfd[k] == old(pfd[k])
                    else pfd[k].events == Mask(false, true, true, false) && pfd[k].fd in wb && wb[pfd[k].fd] == connfd
        invariant forall k | k == 0 || j <= k < pfd.Length :: pfd[k] == old(pfd[k])
        invariant connfd in old(wb) ==> connfd in wb && wb[connfd] == old(wb)[connfd]
      {
        if pfd[j].fd != connfd {
          assert old(IsClient(j));
          pfd[j] := pfd[j].(events := pfd[j].events.(input := false));
          pfd[j] := pfd[j].(events := pfd[j].events.(output := true));
          wb := wb[pfd[j].fd := connfd];
        }
      }
    }

    /** Every other client is armed for output of the message in the buffer of `connfd`. */
    method Rearm(connfd: int)
      requires Valid()
      modifies this`wb, this`chat, pfd
      ensures Valid() && chat == Broadcast(old(chat), connfd)
      ensures forall k | 0 <= k < pfd.Length ::
                pfd[k].fd == old(pfd[k].fd) && pfd[k].revents == old(pfd[k].revents)
                && (old(pfd[k].events.output) ==> pfd[k].events.output)
    {
      RearmOthers(connfd);
      chat := Broadcast(chat, connfd);
      forall k | 1 <= k <= cur ensures IsClient(k) {
        assert old(IsClient(k));
      }
    }

    // ----- One pass over the entries

    /** What `poll` left for the entry at `k`, which has not been handled. */
    ghost predicate Unhandled(k: nat, re: map<int, Mask>)
      requires k < pfd.Length
      reads pfd
    {
      var p := pfd[k];
      p.fd in re && re[p.fd] == p.revents && (p.revents.output ==> p.events.output)
    }

    /** The clients of `seen` are handled, those from `i` on are not, and there are no others. */
    ghost predicate ScanInv(i: nat, base: Chat, seen: seq<int>, re: map<int, Mask>, recvs: map<int, Recv>)
      reads this, pfd
    {
      && Valid() && 1 <= i <= cur + 1
      && (forall a, b | 0 <= a < b < |seen| :: seen[a] != seen[b])
      && (forall fd | fd in seen :: fd in base && fd in re)
      && (forall fd | fd in base :: fd in seen || fd in chat)
      && (forall fd | fd in chat :: fd in base && (fd in seen <==> at[fd] < i))
      && (forall k | i <= k <= cur :: Unhandled(k, re))
      && chat == HandledAll(base, seen, re, recvs)
    }

    /** Nothing is done for the client at `i`. */
    lemma Skips(i: nat, base: Chat, seen: seq<int>, re: map<int, Mask>, recvs: map<int, Recv>)
      requires ScanInv(i, base, seen, re, recvs) && i <= cur
      requires IsClient(i) && Handled(chat, pfd[i].fd, pfd[i].revents, RecvOf(recvs, pfd[i].fd)) == chat
      ensures ScanInv(i + 1, base, seen + [pfd[i].fd], re, recvs)
    {
      assert Unhandled(i, re);
      HandledOneMore(base, seen, pfd[i].fd, re, recvs);
    }

    method Leave(i: nat, ghost base: Chat, ghost seen: seq<int>, ghost re: map<int, Mask>, ghost recvs: map<int, Recv>)
      requires ScanInv(i, base, seen, re, recvs) && i <= cur
      requires Leaves(pfd[i].revents, RecvOf(recvs, pfd[i].fd))
      modifies this`cur, this`wb, this`open, this`chat, this`at, pfd
      ensures ScanInv(i, base, seen + [old(pfd[i].fd)], re, recvs) && cur == old(cur) - 1
    {
      assert IsClient(i) && IsClient(cur) && Unhandled(i, re);
      HandledOneMore(base, seen, pfd[i].fd, re, recvs);
      ghost var n := cur;
      ghost var seen' := seen + [pfd[i].fd];
      SwapRemove(i);
      forall fd | fd in chat ensures fd in base && (fd in seen' <==> at[fd] < i) {
        assert fd in old(chat) && (fd in seen <==> old(at)[fd] < i);
      }
      forall k | i <= k <= cur ensures Unhandled(k, re) {
        assert old(Unhandled(if k == i then n else k, re));
      }
    }

    method Message(i: nat, ghost base: Chat, ghost seen: seq<int>, ghost re: map<int, Mask>,
                   ghost recvs: map<int, Recv>)
      requires ScanInv(i, base, seen, re, recvs) && i <= cur
      requires var r := pfd[i].revents; !r.err && !r.rdhup && r.input && RecvOf(recvs, pfd[i].fd).Got?
      modifies this`wb, this`chat, pfd
      ensures ScanInv(i + 1, base, seen + [old(pfd[i].fd)], re, recvs)
    {
      assert IsClient(i) && Unhandled(i, re);
      HandledOneMore(base, seen, pfd[i].fd, re, recvs);
      ghost var seen' := seen + [pfd[i].fd];
      Rearm(pfd[i].fd);
      assert chat.Keys == old(chat).Keys;
      forall fd | fd in chat ensures fd in base && (fd in seen' <==> at[fd] < i + 1) {
        assert fd in old(chat) && (fd in seen <==> at[fd] < i);
      }
      forall k | i + 1 <= k <= cur ensures Unhandled(k, re) {
        assert old(Unhandled(k, re));
      }
    }

    /** The client at `i` is sent the message from the buffer of `from`, and armed for input again. */
    method Send(i: nat) returns (from: int)
      requires Valid() && 1 <= i <= cur && pfd[i].events.output
      modifies this`wb, this`chat, pfd
      ensures pfd[i].fd in old(chat) && old(chat)[pfd[i].fd] == Sending(from)
      ensures Valid() && chat == old(chat)[pfd[i].fd := Reading] && pfd[i].fd == old(pfd[i].fd)
      ensures forall k | 0 <= k < pfd.Length && k != i :: pfd[k] == old(pfd[k])
    {
      assert IsClient(i);
      var connfd := pfd[i].fd;
      from := wb[connfd];
      wb := wb - {connfd};
      pfd[i] := pfd[i].(events := pfd[i].events.(output := false));
      pfd[i] := pfd[i].(events := pfd[i].events.(input := true));
      chat := chat[connfd := Reading];
      forall k | 1 <= k <= cur ensures IsClient(k) {
        assert old(IsClient(k));
      }
    }

    method Output(i: nat, ghost base: Chat, ghost seen: seq<int>, ghost re: map<int, Mask>, ghost recvs: map<int, Recv>)
      returns (from: int)
      requires ScanInv(i, base, seen, re, recvs) && i <= cur
      requires var r := pfd[i].revents; !r.err && !r.rdhup && !r.input && r.output
      modifies this`wb, this`chat, pfd
      ensures ScanInv(i + 1, base, seen + [old(pfd[i].fd)], re, recvs)
      ensures old(pfd[i].fd) in old(chat) && old(chat)[old(pfd[i].fd)] == Sending(from)
    {
      assert IsClient(i) && Unhandled(i, re);
      HandledOneMore(base, seen, pfd[i].fd, re, recvs);
      from := Send(i);
      forall k | i + 1 <= k <= cur ensures Unhandled(k, re) {
        assert old(Unhandled(k, re));
      }
    }

    /** The branch for a client: the index behind the one that is to be visited next is `next + 1`. */
    method Visit(i: nat, recvs: map<int, Recv>, sent: map<int, int>, ghost base: Chat, ghost seen: seq<int>,
                 ghost re: map<int, Mask>)
      returns (next: nat, sent': map<int, int>)
      requires ScanInv(i, base, seen, re, recvs) && i <= cur
      modifies this`cur, this`wb, this`open, this`chat, this`at, pfd
      ensures ScanInv(next + 1, base, seen + [old(pfd[i].fd)], re, recvs)
      ensures cur - next == old(cur) - i
      ensures var fd, r := old(pfd[i].fd), old(pfd[i].revents);
              && (forall id :: id in chat <==> id in old(chat) && !(id == fd && HangsUp(r, recvs, fd)))
              && (forall id | id in chat && id != fd ::
                    chat[id] == if Speaks(r, recvs, fd) then Sending(fd) else old(chat)[id])
              && (fd in chat ==> chat[fd] == if IsWritable(r) then Reading else old(chat)[fd])
              && if IsWritable(r) then
                   fd in sent' && sent' == sent[fd := sent'[fd]] && fd in old(chat)
                   && old(chat)[fd] == Sending(sent'[fd])
                 else sent' == sent
    {
      assert IsClient(i) && Unhandled(i, re);
      HandledOneMore(base, seen, pfd[i].fd, re, recvs);
      next, sent' := i, sent;
      if pfd[i].revents.err {
        Skips(i, base, seen, re, recvs);
      } else if pfd[i].revents.rdhup {
        Leave(i, base, seen, re, recvs);
        next := next - 1;
      } else if pfd[i].revents.input {
        var ret := RecvOf(recvs, pfd[i].fd);
        if ret.Failed? {
          Leave(i, base, seen, re, recvs);
          next := next - 1;
        } else if ret.Got? {
          Message(i, base, seen, re, recvs);
        } else {
          Skips(i, base, seen, re, recvs);
        }
      } else if pfd[i].revents.output {
        if pfd[i].fd in wb {
          var connfd := pfd[i].fd;
          var from := Output(i, base, seen, re, recvs);
          sent' := sent[connfd := from];
        }
      } else {
        Skips(i, base, seen, re, recvs);
      }
    }

    /** The visit, with what has been handled and sent so far. */
    method VisitOne(i: nat, recvs: map<int, Recv>, handled: seq<int>, sent: map<int, int>, ghost base: Chat,
                    ghost re: map<int, Mask>)
      returns (next: nat, handled': seq<int>, sent': map<int, int>)
      requires ScanInv(i, base, handled, re, recvs) && i <= cur && Delivered(base, handled, re, recvs, sent)
      modifies this`cur, this`wb, this`open, this`chat, this`at, pfd
      ensures ScanInv(next + 1, base, handled', re, recvs) && Delivered(base, handled', re, recvs, sent')
      ensures cur - next == old(cur) - i
    {
      assert IsClient(i) && Unhandled(i, re);
      ghost var fd, before := pfd[i].fd, chat;
      handled' := handled + [pfd[i].fd];
      next, sent' := Visit(i, recvs, sent, base, handled, re);
      HandledSettles(base, handled, re, recvs);
      if IsWritable(re[fd]) {
        ToGetIsArmed(base, before, handled, re, recvs, fd, sent'[fd]);
      }
      DeliveredOneMore(base, handled, re, recvs, sent, fd, sent');
    }

    ghost function PolledOf(fds: set<int>): (re: map<int, Mask>)
      requires forall fd | fd in fds :: fd in at && at[fd] < pfd.Length
      reads this, pfd
      ensures re.Keys == fds && forall fd | fd in fds :: re[fd] == pfd[at[fd]].revents
      decreases fds
    {
      if fd :| fd in fds then PolledOf(fds - {fd})[fd := pfd[at[fd]].revents] else map[]
    }

    /** What `poll` has reported for each client. */
    ghost function Polled(): (r: map<int, Mask>)
      requires Valid()
      reads this, pfd
    {
      PolledOf(chat.Keys)
    }

    /** `poll` reports no more than what is asked for: of the listener, no output and no hang-up. */
    ghost predicate AfterPoll()
      requires Valid()
      reads this, pfd
    {
      && !pfd[0].revents.output && !pfd[0].revents.rdhup
      && forall k | 1 <= k <= cur :: Unhandled(k, Polled())
    }

    method Poll(ready: map<int, Mask>)
      requires Valid()
      modifies pfd
      ensures Valid() && AfterPoll() && chat == old(chat)
      ensures forall k | 0 <= k <= cur :: pfd[k].revents == Reported(pfd[k].events, ReadyOf(ready, pfd[k].fd))
    {
      for k := 0 to cur + 1
        modifies pfd
        invariant forall j | k <= j < pfd.Length :: pfd[j] == old(pfd[j])
        invariant forall j | 0 <= j < k :: pfd[j] == old(pfd[j]).(revents :=
                    Reported(old(pfd[j].events), ReadyOf(ready, old(pfd[j].fd))))
      {
        pfd[k] := pfd[k].(revents := Reported(pfd[k].events, ReadyOf(ready, pfd[k].fd)));
      }
      forall k | 1 <= k <= cur ensures IsClient(k) {
        assert old(IsClient(k));
      }
      assert Valid();
      forall k | 1 <= k <= cur ensures Unhandled(k, Polled()) {
        assert IsClient(k);
      }
    }

    /** The entries behind the listener are as many as the clients. */
    lemma CountsClients()
      requires Valid()
      ensures cur == |chat|
    {
      var fds := seq(cur, k requires 0 <= k < cur && cur < pfd.Length reads this, pfd => pfd[k + 1].fd);
      forall k | 0 <= k < cur ensures fds[k] in chat && at[fds[k]] == k + 1 {
        assert IsClient(k + 1);
      }
      DistinctMembers(fds);
      forall fd | fd in chat ensures fd in fds {
        assert fds[at[fd] - 1] == fd;
      }
      assert (set fd | fd in fds) == chat.Keys;
    }

    /** What `poll` has reported follows from what the clients are waited for with. */
    lemma PolledReports(ready: map<int, Mask>)
      requires Valid()
      requires forall k | 0 <= k <= cur :: pfd[k].revents == Reported(pfd[k].events, ReadyOf(ready, pfd[k].fd))
      ensures Polled() == Reports(chat, ready)
    {
      forall fd | fd in chat ensures Polled()[fd] == Reports(chat, ready)[fd] {
        assert IsClient(at[fd]);
      }
    }

    /** The branch for the listening descriptor; `connfd` is what `accept` returns. */
    method Accept(connfd: int, ghost re: map<int, Mask>, ghost recvs: map<int, Recv>)
      returns (ghost re': map<int, Mask>)
      requires Valid() && forall k | 1 <= k <= cur :: Unhandled(k, re)
      requires connfd >= 0 ==> connfd !in chat && connfd != listenfd
      modifies this`cur, this`open, this`chat, this`at, pfd
      ensures ScanInv(1, chat, [], re', recvs)
      ensures if connfd >= 0 && old(cur) < MAX_CLIENT_NUM
              then chat == old(chat)[connfd := Reading] && re' == re[connfd := NONE] && cur == old(cur) + 1
              else chat == old(chat) && re' == re && cur == old(cur)
    {
      re' := re;
      if connfd < 0 {
        return;
      }
      if cur >= MAX_CLIENT_NUM {
        return;
      }
      Append(connfd);
      re' := re[connfd := NONE];
      forall k | 1 <= k <= cur ensures Unhandled(k, re') {
        if k < cur {
          assert old(Unhandled(k, re)) && old(IsClient(k));
        }
      }
    }

    /** The pass over all entries. */
    method Scan(connfd: int, recvs: map<int, Recv>) returns (handled: seq<int>, sent: map<int, int>)
      requires Valid() && AfterPoll()
      requires connfd >= 0 ==> connfd !in chat && connfd != listenfd
      modifies this`cur, this`wb, this`open, this`chat, this`at, pfd
      ensures Valid()
      ensures var joins := connfd >= 0 && old(pfd[0].revents.input) && old(cur) < MAX_CLIENT_NUM;
              var base := if joins then old(chat)[connfd := Reading] else old(chat);
              var re := if joins then old(Polled())[connfd := NONE] else old(Polled());
              && (forall i, j | 0 <= i < j < |handled| :: handled[i] != handled[j])
              && (forall fd :: fd in handled <==> fd in base)
              && Settled(base, chat, handled, re, recvs) && Delivered(base, handled, re, recvs, sent)
    {
      handled, sent := [], map[];
      ghost var base, re := chat, Polled();
      var i: nat := 0;
      while i < cur + 1
        invariant i == 0 ==> handled == [] && sent == map[] && Valid() && AfterPoll()
        invariant i == 0 ==> base == chat == old(chat) && re == Polled()
        invariant i == 0 ==> cur == old(cur) && re == old(Polled()) && pfd[0] == old(pfd[0])
        invariant i > 0 ==> ScanInv(i, base, handled, re, recvs) && Delivered(base, handled, re, recvs, sent)
        invariant i > 0 ==>
                    var joins := connfd >= 0 && old(pfd[0].revents.input) && old(cur) < MAX_CLIENT_NUM;
                    && base == (if joins then old(chat)[connfd := Reading] else old(chat))
                    && re == if joins then old(Polled())[connfd := NONE] else old(Polled())
        decreases cur + 1 - i + if i == 0 then 1 else 0
      {
        assert i > 0 ==> IsClient(i);
        if pfd[i].fd == listenfd && pfd[i].revents.input {
          re := Accept(connfd, re, recvs);
          base := chat;
        } else if i > 0 {
          i, handled, sent := VisitOne(i, recvs, handled, sent, base, re);
        }
        i := i + 1;
      }
      HandledSettles(base, handled, re, recvs);
    }
  }

  // ----- Any run

  /** What one turn of the main loop meets: what is ready, the result of `accept`, and the results of `recv`. */
  datatype Round = Round(ready: map<int, Mask>, connfd: int, recvs: map<int, Recv>)

  /** What one turn does: the order in which the clients are handled, and whose message is sent to whom. */
  datatype Pass = Pass(handled: seq<int>, sent: map<int, int>)

  /** A new connection is accepted and there is room for it; `accept` does not return a descriptor that is open. */
  predicate Joins(before: Chat, listenfd: int, round: Round) {
    && round.connfd >= 0 && round.connfd !in before && round.connfd != listenfd
    && ReadyOf(round.ready, listenfd).input && |before| < MAX_CLIENT_NUM
  }

  /** The clients of a round: those that were there and the one that has just joined. */
  ghost function Base(before: Chat, listenfd: int, round: Round): (chat': Chat) {
    if Joins(before, listenfd, round) then before[round.connfd := Reading] else before
  }

  /** The events of a round; of a client that has just joined none are known yet. */
  ghost function Events(before: Chat, listenfd: int, round: Round): (re: map<int, Mask>)
    ensures re.Keys == Base(before, listenfd, round).Keys
    ensures forall fd | fd in re :: re[fd] ==
              if fd !in before || fd !in round.ready then NONE
              else
                var asked, ready := before[fd], round.ready[fd];
                Mask(asked.Reading? && ready.input, asked.Sending? && ready.output, ready.rdhup, ready.err)
  {
    var re := Reports(before, round.ready);
    if Joins(before, listenfd, round) then re[round.connfd := NONE] else re
  }

  /**
   * One round, from the clients before it: every client is handled once, in some order; and what becomes of each, and
   * what it is sent, follows from this order, from what was reported of the clients and from what was received.
   */
  ghost predicate Turn(before: Chat, after: Chat, listenfd: int, round: Round, pass: Pass) {
    var handled := pass.handled;
    var base, re := Base(before, listenfd, round), Events(before, listenfd, round);
    && (forall i, j | 0 <= i < j < |handled| :: handled[i] != handled[j])
    && (forall fd :: fd in handled <==> fd in base)
    && Settled(base, after, handled, re, round.recvs) && Delivered(base, handled, re, round.recvs, pass.sent)
  }

  /** One turn of the main loop. */
  method Turnaround(s: Server, round: Round) returns (pass: Pass)
    requires s.Valid()
    modifies s, s.pfd
    ensures s.Valid() && Turn(old(s.chat), s.chat, s.listenfd, round, pass)
  {
    ghost var before := s.chat;
    s.Poll(round.ready);
    s.CountsClients();
    s.PolledReports(round.ready);
    var connfd := if round.connfd in s.open || round.connfd == s.listenfd then -1 else round.connfd;
    var handled, sent := s.Scan(connfd, round.recvs);
    pass := Pass(handled, sent);
  }

  ghost predicate TurnAt(states: seq<Chat>, listenfd: int, rounds: seq<Round>, log: seq<Pass>, k: nat)
    requires k < |log| <= |rounds| && |states| == |log| + 1
  {
    Turn(states[k], states[k + 1], listenfd, rounds[k], log[k])
  }

  /** The rounds so far are turns from each of the states to the next. */
  ghost predicate Turns(states: seq<Chat>, listenfd: int, rounds: seq<Round>, log: seq<Pass>) {
    && |log| <= |rounds| && |states| == |log| + 1 && states[0] == map[]
    && forall k | 0 <= k < |log| :: TurnAt(states, listenfd, rounds, log, k)
  }

  lemma TurnStays(states: seq<Chat>, listenfd: int, rounds: seq<Round>, log: seq<Pass>, after: Chat, pass: Pass, k: nat)
    requires k < |log| < |rounds| && |states| == |log| + 1 && TurnAt(states, listenfd, rounds, log, k)
    ensures TurnAt(states + [after], listenfd, rounds, log + [pass], k)
  {
  }

  lemma TurnIsLast(states: seq<Chat>, listenfd: int, rounds: seq<Round>, log: seq<Pass>, after: Chat, pass: Pass)
    requires |log| < |rounds| && |states| == |log| + 1 && Turn(states[|log|], after, listenfd, rounds[|log|], pass)
    ensures TurnAt(states + [after], listenfd, rounds, log + [pass], |log|)
  {
  }

  lemma TurnsOnce(states: seq<Chat>, listenfd: int, rounds: seq<Round>, log: seq<Pass>, after: Chat, pass: Pass)
    requires Turns(states, listenfd, rounds, log) && |log| < |rounds|
    requires Turn(states[|log|], after, listenfd, rounds[|log|], pass)
    ensures Turns(states + [after], listenfd, rounds, log + [pass])
  {
    TurnIsLast(states, listenfd, rounds, log, after, pass);
    forall k | 0 <= k < |log| + 1 ensures TurnAt(states + [after], listenfd, rounds, log + [pass], k) {
      if k < |log| {
        TurnStays(states, listenfd, rounds, log, after, pass, k);
      }
    }
  }

  /** Over every run, the entries stay those of distinct clients, each armed for one of input and output. */
  method Serve(listenfd: int, rounds: seq<Round>) returns (s: Server, log: seq<Pass>, ghost states: seq<Chat>)
    ensures s.Valid() && |log| == |rounds| && Turns(states, listenfd, rounds, log) && s.chat == states[|rounds|]
  {
    s := new Server(listenfd);
    log, states := [], [s.chat];
    for k := 0 to |rounds|
      invariant fresh(s) && fresh(s.pfd) && s.Valid() && s.listenfd == listenfd && |log| == k
      invariant Turns(states, listenfd, rounds, log) && s.chat == states[k]
    {
      var pass := Turnaround(s, rounds[k]);
      TurnsOnce(states, listenfd, rounds, log, s.chat, pass);
      log, states := log + [pass], states + [s.chat];
    }
  }
}
